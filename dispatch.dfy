/** The decisions of the hourly broadcast (`agendarEnvios`): which day and
    slot a tick belongs to, whether it sends at all, and what a batch over
    the recipient groups leaves behind, for a given behaviour of the
    WhatsApp client. */
module Dispatch {
  import opened Wrappers
  import opened Hours
  import opened Content
  import opened Groups
  import opened History

  /** `diaSemana`: the weekday the tick belongs to. At 0 and 1 o'clock it is
      still the previous day, Sunday (0) wrapping round to Saturday (6). */
  function EffectiveWeekday(weekday: int, hour: int): (d: int)
    requires 0 <= weekday <= 6 && 0 <= hour <= 23
    ensures 0 <= d <= 6
    ensures hour >= 2 ==> d == weekday
    ensures hour <= 1 ==> d == (weekday + 6) % 7
  {
    var day := weekday;
    if 0 <= hour <= 1 then (if day - 1 < 0 then 6 else day - 1) else day
  }

  /** `diaMap`: the day name of weekdays 1 to 6; Sunday has none. */
  function WeekdayName(d: int): (name: Option<string>)
    ensures name.Some? <==> 1 <= d <= 6
    ensures name.Some? ==> name.value == Days[d - 1]
  {
    if 1 <= d <= 6 then Some(Days[d - 1]) else None
  }

  /** A ledger key `${dia}-${hora}`. */
  datatype Slot = Slot(day: int, hour: int)

  /** Why a tick sends nothing. `Unmapped` is the guard on `diaMap` and
      `imagemMap`; `CaptionUndefined` is the `substring` call on a caption
      that is not there, which throws before the image is looked up. */
  datatype Skip = Sunday | NotScheduled | AlreadySent | Unmapped | CaptionUndefined | Incomplete | NoRecipients

  /** What a tick decides before sending anything. */
  datatype Decision =
    | Skipped(reason: Skip)
    | Broadcast(slot: Slot, image: string, caption: string, groups: seq<string>)

  /** The guards of the tick, in the order the code tests them, over the
      files as they stand and the ledger `sent`. */
  function Decide(weekday: int, hour: int, hoursFile: Option<seq<int>>, sent: set<Slot>,
                  captionsFile: Option<string>, assets: map<string, Bytes>, recipientsFile: Option<string>): Decision
    requires 0 <= weekday <= 6 && 0 <= hour <= 23
  {
    var day := EffectiveWeekday(weekday, hour);
    if day == 0 then Skipped(Sunday)
    else if hour !in ServerHours(hoursFile) then Skipped(NotScheduled)
    else if Slot(day, hour) in sent then Skipped(AlreadySent)
    else
      match WeekdayName(day)
      case None => Skipped(Unmapped)
      case Some(name) =>
        var captions := Captions(captionsFile);
        if name !in captions then Skipped(CaptionUndefined)
        else
          var image := ImageOf(assets, ImageBase(name).value);
          if image.None? || captions[name] == "" then Skipped(Incomplete)
          else
            var groups := Recipients(recipientsFile);
            if groups == [] then Skipped(NoRecipients)
            else Broadcast(Slot(day, hour), image.value, captions[name], groups)
  }

  /** A tick broadcasts exactly when it is not Sunday (after the late-night
      shift), the hour is scheduled, the slot is not in the ledger, the day
      has a non-empty caption and an image, and there is a recipient; it
      then sends that caption and image to every recipient. */
  lemma BroadcastIff(weekday: int, hour: int, hoursFile: Option<seq<int>>, sent: set<Slot>,
                     captionsFile: Option<string>, assets: map<string, Bytes>, recipientsFile: Option<string>)
    requires 0 <= weekday <= 6 && 0 <= hour <= 23
    ensures var d := EffectiveWeekday(weekday, hour);
      var decision := Decide(weekday, hour, hoursFile, sent, captionsFile, assets, recipientsFile);
      decision.Broadcast? <==>
        d != 0 && hour in ServerHours(hoursFile) && Slot(d, hour) !in sent
        && Caption(Captions(captionsFile), Days[d - 1]).Some?
        && ImageOf(assets, ImageBase(Days[d - 1]).value).Some?
        && Recipients(recipientsFile) != []
    ensures var d := EffectiveWeekday(weekday, hour);
      var decision := Decide(weekday, hour, hoursFile, sent, captionsFile, assets, recipientsFile);
      decision.Broadcast? ==>
        decision.slot == Slot(d, hour)
        && Caption(Captions(captionsFile), Days[d - 1]) == Some(decision.caption)
        && ImageOf(assets, ImageBase(Days[d - 1]).value) == Some(decision.image)
        && decision.groups == Recipients(recipientsFile)
  {
    var d := EffectiveWeekday(weekday, hour);
    if d != 0 && hour in ServerHours(hoursFile) && Slot(d, hour) !in sent {
      assert WeekdayName(d) == Some(Days[d - 1]);
    }
  }

  /** The `diaMap`/`imagemMap` guard never fires: past the Sunday check the
      day is always one of the six mapped ones. */
  lemma NeverUnmapped(weekday: int, hour: int, hoursFile: Option<seq<int>>, sent: set<Slot>,
                      captionsFile: Option<string>, assets: map<string, Bytes>, recipientsFile: Option<string>)
    requires 0 <= weekday <= 6 && 0 <= hour <= 23
    ensures Decide(weekday, hour, hoursFile, sent, captionsFile, assets, recipientsFile) != Skipped(Unmapped)
  {
  }

  /** A slot in the ledger is never sent again before the ledger is cleared,
      and an empty ledger never blocks a tick. */
  lemma LedgerBlocksResend(weekday: int, hour: int, hoursFile: Option<seq<int>>, sent: set<Slot>,
                           captionsFile: Option<string>, assets: map<string, Bytes>, recipientsFile: Option<string>)
    requires 0 <= weekday <= 6 && 0 <= hour <= 23
    ensures var d := EffectiveWeekday(weekday, hour);
      Slot(d, hour) in sent ==>
        Decide(weekday, hour, hoursFile, sent, captionsFile, assets, recipientsFile).Skipped?
    ensures Decide(weekday, hour, hoursFile, {}, captionsFile, assets, recipientsFile) != Skipped(AlreadySent)
  {
  }

  /** Once every ad has been deleted (data.txt emptied) no tick sends
      anything until a caption is saved again. */
  lemma NothingAfterDeleteAll(weekday: int, hour: int, hoursFile: Option<seq<int>>, sent: set<Slot>,
                              assets: map<string, Bytes>, recipientsFile: Option<string>)
    requires 0 <= weekday <= 6 && 0 <= hour <= 23
    ensures Decide(weekday, hour, hoursFile, sent, Some(""), assets, recipientsFile).Skipped?
  {
    EmptyFileNoCaptions();
  }

  // ---------------------------------------------------------------------
  // A batch

  /** How a send ended: delivered, or an error with its message. */
  datatype Delivery = Delivered | Refused(reason: string)

  /** What the WhatsApp client does for the `i`-th group of a batch: the
      chat's name from `getChatById` (`None` when it throws), the outcome of
      `sendMessage`, and the clock when the attempt started. */
  datatype Attempt = Attempt(chatName: Option<string>, delivery: Delivery, stamp: Stamp)

  /** What goes through the WhatsApp client, in order. */
  datatype Event = LookUp(groupId: string) | Send(groupId: string, image: string, caption: string) | Pause(millis: nat)

  /** The pause after each successful send but the last. */
  const PauseMillis: nat := 2000

  /** The index of the first group from `i` on whose chat lookup fails, or
      `n` when every lookup succeeds: the batch stops there. */
  function Reach(transport: nat -> Attempt, n: nat, i: nat): (r: nat)
    requires i <= n
    ensures i <= r <= n
    ensures forall j :: i <= j < r ==> transport(j).chatName.Some?
    ensures r < n ==> transport(r).chatName.None?
    decreases n - i
  {
    if i == n then n
    else if transport(i).chatName.None? then i
    else Reach(transport, n, i + 1)
  }

  /** The client's events for the `i`-th group once its chat is found. */
  function GroupEvents(groups: seq<string>, image: string, caption: string, transport: nat -> Attempt, i: nat): seq<Event>
    requires i < |groups|
  {
    [LookUp(groups[i]), Send(groups[i], image, caption)]
    + if transport(i).delivery.Delivered? && i < |groups| - 1 then [Pause(PauseMillis)] else []
  }

  /** The history record for the `i`-th group once its chat is found. */
  function GroupRecord(groups: seq<string>, transport: nat -> Attempt, i: nat): Record
    requires i < |groups| && transport(i).chatName.Some?
  {
    var a := transport(i);
    match a.delivery
    case Delivered => SuccessRecord(groups[i], a.chatName.value, a.stamp, i, |groups|)
    case Refused(reason) => FailureRecord(groups[i], a.chatName.value, a.stamp, i, |groups|, reason)
  }

  /** The events of the first `k` groups. */
  function BatchEvents(groups: seq<string>, image: string, caption: string, transport: nat -> Attempt, k: nat): seq<Event>
    requires k <= |groups|
  {
    if k == 0 then [] else BatchEvents(groups, image, caption, transport, k - 1) + GroupEvents(groups, image, caption, transport, k - 1)
  }

  /** The records of the first `k` groups, whose chats were all found. */
  function BatchRecords(groups: seq<string>, transport: nat -> Attempt, k: nat): seq<Record>
    requires k <= |groups|
    requires forall j :: 0 <= j < k ==> transport(j).chatName.Some?
  {
    if k == 0 then [] else BatchRecords(groups, transport, k - 1) + [GroupRecord(groups, transport, k - 1)]
  }

  /** One turn of the sending loop on the client's side: the lookup, the
      send, and the pause when due, appended to the events so far. */
  lemma EventsStep(before: seq<Event>, after: seq<Event>,
                   groups: seq<string>, image: string, caption: string, transport: nat -> Attempt, i: nat)
    requires i < |groups|
    requires before == BatchEvents(groups, image, caption, transport, i)
    requires after == before + [LookUp(groups[i])] + [Send(groups[i], image, caption)]
      + (if transport(i).delivery.Delivered? && i < |groups| - 1 then [Pause(PauseMillis)] else [])
    ensures after == BatchEvents(groups, image, caption, transport, i + 1)
  {
    assert [LookUp(groups[i])] + [Send(groups[i], image, caption)] == [LookUp(groups[i]), Send(groups[i], image, caption)];
  }

  /** One turn of the sending loop on the history's side: `salvarHistorico`
      pushing the `i`-th group's record. */
  lemma RecordsStep(file: HistoryFile, groups: seq<string>, transport: nat -> Attempt, i: nat, record: Record)
    requires i < |groups|
    requires forall j :: 0 <= j <= i ==> transport(j).chatName.Some?
    requires record == GroupRecord(groups, transport, i)
    ensures Push(AppendAll(file, BatchRecords(groups, transport, i)), record)
      == AppendAll(file, BatchRecords(groups, transport, i + 1))
  {
    AppendOne(file, BatchRecords(groups, transport, i), record);
  }

  /** What a whole batch leaves behind: the client's events, the records
      appended to the history, and whether the loop ran to its end (and so
      the slot gets marked). */
  datatype Outcome = Outcome(events: seq<Event>, records: seq<Record>, complete: bool)

  function RunBatch(groups: seq<string>, image: string, caption: string, transport: nat -> Attempt): Outcome {
    var k := Reach(transport, |groups|, 0);
    Outcome(
      BatchEvents(groups, image, caption, transport, k) + (if k < |groups| then [LookUp(groups[k])] else []),
      BatchRecords(groups, transport, k),
      k == |groups|)
  }

  /** The `for` loop over the recipient groups with the client behaving as
      `transport` says for each group in turn: each reached group is looked
      up, sent the image with the caption and given one history record, a
      pause follows each delivered send but the last, and a group whose chat
      cannot be found ends the batch (the exception leaves the loop). */
  method SendToGroups(groups: seq<string>, image: string, caption: string, transport: nat -> Attempt, file: HistoryFile)
    returns (events: seq<Event>, history: HistoryFile, complete: bool)
    ensures var out := RunBatch(groups, image, caption, transport);
      events == out.events && history == AppendAll(file, out.records) && complete == out.complete
  {
    events, history, complete := [], file, false;
    var i := 0;
    while i < |groups|
      invariant 0 <= i <= |groups|
      invariant forall j :: 0 <= j < i ==> transport(j).chatName.Some?
      invariant events == BatchEvents(groups, image, caption, transport, i)
      invariant history == AppendAll(file, BatchRecords(groups, transport, i))
    {
      var attempt := transport(i);
      ghost var before := events;
      events := events + [LookUp(groups[i])];
      if attempt.chatName.None? {
        // `getChatById` throws
        ReachIsFirst(transport, |groups|, 0, i);
        return;
      }
      events := events + [Send(groups[i], image, caption)];
      // the success record with the chat's name, or the failure record with
      // the error's message
      var record := GroupRecord(groups, transport, i);
      // `salvarHistorico`: read the stored array (or start empty), push, write
      RecordsStep(file, groups, transport, i, record);
      history := Push(history, record);
      if attempt.delivery.Delivered? && i < |groups| - 1 {
        events := events + [Pause(PauseMillis)];
      }
      EventsStep(before, events, groups, image, caption, transport, i);
      i := i + 1;
    }
    complete := true;
  }

  /** The `i`-th record of a batch is the `i`-th group's. */
  lemma {:induction false} BatchRecordsAt(groups: seq<string>, transport: nat -> Attempt, k: nat)
    requires k <= |groups|
    requires forall j :: 0 <= j < k ==> transport(j).chatName.Some?
    ensures |BatchRecords(groups, transport, k)| == k
    ensures forall i :: 0 <= i < k ==> BatchRecords(groups, transport, k)[i] == GroupRecord(groups, transport, i)
  {
    if k > 0 {
      var before := BatchRecords(groups, transport, k - 1);
      var rs := before + [GroupRecord(groups, transport, k - 1)];
      BatchRecordsAt(groups, transport, k - 1);
      assert forall i :: 0 <= i < k - 1 ==> rs[i] == before[i];
    }
  }

  /** The record of a group whose chat was found: the group's id, the name
      its chat reported, position `(i+1)/N`, and status `erro` exactly when
      the send failed, with the failure's message. */
  lemma GroupRecordShape(groups: seq<string>, transport: nat -> Attempt, i: nat)
    requires i < |groups| && transport(i).chatName.Some?
    ensures var r := GroupRecord(groups, transport, i);
      r.groupId == groups[i]
      && r.name == transport(i).chatName.value
      && r.position == Position(i + 1, |groups|)
      && (r.status == Failure <==> transport(i).delivery.Refused?)
      && (r.error.Some? <==> transport(i).delivery.Refused?)
      && (transport(i).delivery.Refused? ==> r.error == Some(transport(i).delivery.reason))
  {
  }

  /** One record per group reached, in file order, each as
      `GroupRecordShape` describes it. */
  lemma BatchRecordsShape(groups: seq<string>, transport: nat -> Attempt, k: nat)
    requires k <= |groups|
    requires forall j :: 0 <= j < k ==> transport(j).chatName.Some?
    ensures var rs := BatchRecords(groups, transport, k);
      |rs| == k
      && forall i :: 0 <= i < k ==>
        rs[i].groupId == groups[i]
        && rs[i].name == transport(i).chatName.value
        && rs[i].position == Position(i + 1, |groups|)
        && (rs[i].status == Failure <==> transport(i).delivery.Refused?)
        && (rs[i].error.Some? <==> transport(i).delivery.Refused?)
        && (transport(i).delivery.Refused? ==> rs[i].error == Some(transport(i).delivery.reason))
  {
    BatchRecordsAt(groups, transport, k);
    forall i | 0 <= i < k
      ensures var r := GroupRecord(groups, transport, i);
        r.groupId == groups[i]
        && r.name == transport(i).chatName.value
        && r.position == Position(i + 1, |groups|)
        && (r.status == Failure <==> transport(i).delivery.Refused?)
        && (r.error.Some? <==> transport(i).delivery.Refused?)
        && (transport(i).delivery.Refused? ==> r.error == Some(transport(i).delivery.reason))
    {
      GroupRecordShape(groups, transport, i);
    }
  }


  /** The groups a list of events sends to, in order. */
  function SentTo(events: seq<Event>): seq<string> {
    if events == [] then []
    else SentTo(events[..|events| - 1]) + match events[|events| - 1] {
      case Send(g, _, _) => [g]
      case _ => []
    }
  }

  /** The number of pauses in a list of events. */
  function Pauses(events: seq<Event>): nat {
    if events == [] then 0
    else Pauses(events[..|events| - 1]) + if events[|events| - 1].Pause? then 1 else 0
  }

  /** The number of the first `k` attempts whose send was delivered. */
  function DeliveredCount(transport: nat -> Attempt, k: nat): nat {
    if k == 0 then 0 else DeliveredCount(transport, k - 1) + if transport(k - 1).delivery.Delivered? then 1 else 0
  }

  lemma {:induction false} SentToAppend(a: seq<Event>, b: seq<Event>)
    ensures SentTo(a + b) == SentTo(a) + SentTo(b)
    ensures Pauses(a + b) == Pauses(a) + Pauses(b)
    decreases |b|
  {
    if b == [] {
      assert a + b == a;
    } else {
      var b' := b[..|b| - 1];
      assert (a + b)[..|a + b| - 1] == a + b';
      assert (a + b)[|a + b| - 1] == b[|b| - 1];
      SentToAppend(a, b');
    }
  }

  lemma GroupEventsCounts(groups: seq<string>, image: string, caption: string, transport: nat -> Attempt, i: nat)
    requires i < |groups|
    ensures SentTo(GroupEvents(groups, image, caption, transport, i)) == [groups[i]]
    ensures Pauses(GroupEvents(groups, image, caption, transport, i))
      == if transport(i).delivery.Delivered? && i < |groups| - 1 then 1 else 0
  {
    var g := groups[i];
    var e := GroupEvents(groups, image, caption, transport, i);
    var head := [LookUp(g), Send(g, image, caption)];
    assert SentTo([LookUp(g)]) == [] by {
      assert [LookUp(g)][..0] == [];
    }
    assert head[..1] == [LookUp(g)];
    assert SentTo(head) == [g];
    assert Pauses(head) == 0 by {
      assert Pauses([LookUp(g)]) == 0 by {
        assert [LookUp(g)][..0] == [];
      }
    }
    var tail := if transport(i).delivery.Delivered? && i < |groups| - 1 then [Pause(PauseMillis)] else [];
    SentToAppend(head, tail);
    if tail != [] {
      assert tail[..0] == [];
    }
  }

  /** The first `k` groups are each sent to once, in file order, whether
      their sends were delivered or not; a pause follows every delivered
      send except one to the last group, and nothing else pauses. */
  lemma {:induction false} BatchEventsShape(groups: seq<string>, image: string, caption: string, transport: nat -> Attempt, k: nat)
    requires k <= |groups|
    ensures SentTo(BatchEvents(groups, image, caption, transport, k)) == groups[..k]
    ensures Pauses(BatchEvents(groups, image, caption, transport, k))
      == DeliveredCount(transport, k)
         - if k == |groups| && k > 0 && transport(k - 1).delivery.Delivered? then 1 else 0
  {
    if k > 0 {
      BatchEventsShape(groups, image, caption, transport, k - 1);
      SentToAppend(BatchEvents(groups, image, caption, transport, k - 1), GroupEvents(groups, image, caption, transport, k - 1));
      GroupEventsCounts(groups, image, caption, transport, k - 1);
      assert groups[..k] == groups[..k - 1] + [groups[k - 1]];
    }
  }

  /** When every chat is found the batch completes: every group is sent to
      once in file order and gets exactly one record, a failed send
      included, and a batch whose sends were all delivered pauses once
      between each two groups. */
  lemma CompleteBatch(groups: seq<string>, image: string, caption: string, transport: nat -> Attempt)
    requires forall j :: 0 <= j < |groups| ==> transport(j).chatName.Some?
    ensures var out := RunBatch(groups, image, caption, transport);
      out.complete
      && SentTo(out.events) == groups
      && |out.records| == |groups|
      && ((forall j :: 0 <= j < |groups| ==> transport(j).delivery.Delivered?) && groups != []
          ==> Pauses(out.events) == |groups| - 1)
  {
    var n := |groups|;
    assert Reach(transport, n, 0) == n;
    var events := BatchEvents(groups, image, caption, transport, n);
    assert RunBatch(groups, image, caption, transport).events == events + [];
    assert events + [] == events;
    BatchEventsShape(groups, image, caption, transport, n);
    BatchRecordsShape(groups, transport, n);
    assert groups[..n] == groups;
    if forall j :: 0 <= j < n ==> transport(j).delivery.Delivered? {
      AllDelivered(transport, n);
    }
  }

  lemma {:induction false} AllDelivered(transport: nat -> Attempt, k: nat)
    requires forall j :: 0 <= j < k ==> transport(j).delivery.Delivered?
    ensures DeliveredCount(transport, k) == k
  {
    if k > 0 {
      AllDelivered(transport, k - 1);
    }
  }

  /** When the chat lookup of group `k` fails, the batch stops there: the
      groups before it were sent to and recorded, group `k` and those after
      it get nothing, and the slot is not marked. */
  lemma AbortedBatch(groups: seq<string>, image: string, caption: string, transport: nat -> Attempt, k: nat)
    requires k < |groups|
    requires forall j :: 0 <= j < k ==> transport(j).chatName.Some?
    requires transport(k).chatName.None?
    ensures var out := RunBatch(groups, image, caption, transport);
      !out.complete
      && SentTo(out.events) == groups[..k]
      && |out.records| == k
      && out.events[|out.events| - 1] == LookUp(groups[k])
  {
    ReachIsFirst(transport, |groups|, 0, k);
    var events := BatchEvents(groups, image, caption, transport, k);
    BatchEventsShape(groups, image, caption, transport, k);
    BatchRecordsShape(groups, transport, k);
    SentToAppend(events, [LookUp(groups[k])]);
    assert SentTo([LookUp(groups[k])]) == [] by {
      assert [LookUp(groups[k])][..0] == [];
    }
  }

  lemma {:induction false} ReachIsFirst(transport: nat -> Attempt, n: nat, i: nat, k: nat)
    requires i <= k < n
    requires forall j :: i <= j < k ==> transport(j).chatName.Some?
    requires transport(k).chatName.None?
    ensures Reach(transport, n, i) == k
    decreases k - i
  {
    if i < k {
      ReachIsFirst(transport, n, i + 1, k);
    }
  }
}
