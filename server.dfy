/** The server's state and the operations that change it: the hourly tick
    of `agendarEnvios` with its ledger of slots already sent, the midnight
    clearing of that ledger, the group scan of `processarGrupo`, and the
    routes that rewrite the hours, the recipients, the captions, the images
    and the history. The files are fields of `Server`; the WhatsApp client
    and the clock are parameters of the operations that use them. */
module Service {
  import opened Wrappers
  import opened Text
  import opened Hours
  import opened Content
  import opened Groups
  import opened History
  import opened Dispatch

  /** The slots listed in envios_registrados.txt; a missing file lists
      none. */
  function LedgerSlots(file: Option<seq<Slot>>): (slots: set<Slot>)
    ensures file.None? ==> slots == {}
    ensures file.Some? ==> forall s :: s in slots <==> s in file.value
  {
    if file.None? then {} else set s | s in file.value
  }

  /** The lines of envios_registrados.txt, none when it is missing. */
  function LedgerLines(file: Option<seq<Slot>>): seq<Slot> {
    if file.None? then [] else file.value
  }

  /** The status a route answers with: 400, 404 for a source that is not
      there, or success. */
  datatype Reply = BadRequest | SourceNotFound | Done

  class Server {
    /** horarios.txt, as the hours it lists. */
    var hoursFile: Option<seq<int>>
    /** data.txt. */
    var captionsFile: Option<string>
    /** The files under assets/, by name. */
    var assets: map<string, Bytes>
    /** grupos_check.txt. */
    var recipientsFile: Option<string>
    /** grupos_scan.txt; a missing file reads as empty. */
    var scanFile: string
    /** historico-envios.json. */
    var historyFile: HistoryFile
    /** envios_registrados.txt, as the slots it lists. */
    var ledgerFile: Option<seq<Slot>>
    /** `enviadosHoje`: the slots already sent today. */
    var sentToday: set<Slot>
    /** What the tick has made the WhatsApp client do so far. */
    var log: seq<Event>

    /** The in-memory ledger and its file agree. */
    ghost predicate Valid()
      reads this
    {
      sentToday == LedgerSlots(ledgerFile)
    }

    /** The start of `agendarEnvios`: the ledger is loaded from its file,
        one slot per line. */
    constructor(hoursFile: Option<seq<int>>, captionsFile: Option<string>, assets: map<string, Bytes>,
                recipientsFile: Option<string>, scanFile: string, historyFile: HistoryFile,
                ledgerFile: Option<seq<Slot>>)
      ensures Valid()
      ensures this.hoursFile == hoursFile && this.captionsFile == captionsFile && this.assets == assets
      ensures this.recipientsFile == recipientsFile && this.scanFile == scanFile
      ensures this.historyFile == historyFile && this.ledgerFile == ledgerFile
      ensures sentToday == LedgerSlots(ledgerFile) && log == []
    {
      var loaded: set<Slot> := {};
      if ledgerFile.Some? {
        var lines := ledgerFile.value;
        var i := 0;
        while i < |lines|
          invariant 0 <= i <= |lines|
          invariant loaded == set s | s in lines[..i]
        {
          assert lines[..i + 1] == lines[..i] + [lines[i]];
          loaded := loaded + {lines[i]};
          i := i + 1;
        }
        assert lines[..i] == lines;
      }
      this.hoursFile := hoursFile;
      this.captionsFile := captionsFile;
      this.assets := assets;
      this.recipientsFile := recipientsFile;
      this.scanFile := scanFile;
      this.historyFile := historyFile;
      this.ledgerFile := ledgerFile;
      sentToday := loaded;
      log := [];
    }

    /** The midnight job: the ledger is emptied and its file removed. */
    method ClearLedger()
      modifies this`sentToday, this`ledgerFile
      ensures Valid()
      ensures sentToday == {} && ledgerFile == None
    {
      sentToday := {};
      ledgerFile := None;
    }

    /** The guards of the hourly tick at `hour` o'clock on `weekday` (0 is
        Sunday), in the order the code tests them, over the files as they
        stand: the late-night shift of the day, the schedule, the ledger,
        the caption, the image and the recipients. `Decide` states the same
        guards on values; this method takes them step by step as the tick
        does, reading the caption and the image through the `ReadCaptions`
        and `FindImage` loops, and its contract ties the two together. */
    method Plan(weekday: int, hour: int) returns (decision: Decision)
      requires 0 <= weekday <= 6 && 0 <= hour <= 23
      ensures decision == Decide(weekday, hour, hoursFile, sentToday, captionsFile, assets, recipientsFile)
    {
      var day := weekday;
      if 0 <= hour <= 1 {
        day := day - 1;
        if day < 0 {
          day := 6;
        }
      }
      if day == 0 {
        return Skipped(Sunday);
      }
      if hour !in ServerHours(hoursFile) {
        return Skipped(NotScheduled);
      }
      var key := Slot(day, hour);
      if key in sentToday {
        return Skipped(AlreadySent);
      }
      var name := WeekdayName(day);
      if name.None? {
        return Skipped(Unmapped);
      }
      var captions := ReadCaptions(captionsFile);
      if name.value !in captions {
        // `texto.substring` throws on the missing caption
        return Skipped(CaptionUndefined);
      }
      var caption := captions[name.value];
      var image, _ := FindImage(assets, ImageBase(name.value).value);
      if image.None? || caption == "" {
        return Skipped(Incomplete);
      }
      var groups := Recipients(recipientsFile);
      if groups == [] {
        return Skipped(NoRecipients);
      }
      return Broadcast(key, image.value, caption, groups);
    }

    /** The hourly tick (`agendarEnvios`' cron job): nothing happens unless
        `Decide` says broadcast; then the client does what `RunBatch` says,
        one history record is appended per group reached, and the slot is
        marked in both ledgers only when every group was reached. */
    method Tick(weekday: int, hour: int, transport: nat -> Attempt)
      requires 0 <= weekday <= 6 && 0 <= hour <= 23
      requires Valid()
      modifies this`log, this`historyFile, this`sentToday, this`ledgerFile
      ensures Valid()
      ensures match Decide(weekday, hour, old(hoursFile), old(sentToday), old(captionsFile), old(assets), old(recipientsFile))
        case Skipped(_) =>
          log == old(log) && historyFile == old(historyFile)
          && sentToday == old(sentToday) && ledgerFile == old(ledgerFile)
        case Broadcast(slot, image, caption, groups) =>
          var out := RunBatch(groups, image, caption, transport);
          log == old(log) + out.events
          && historyFile == AppendAll(old(historyFile), out.records)
          && sentToday == (if out.complete then old(sentToday) + {slot} else old(sentToday))
          && ledgerFile == (if out.complete then Some(LedgerLines(old(ledgerFile)) + [slot]) else old(ledgerFile))
    {
      var decision := Plan(weekday, hour);
      if decision.Broadcast? {
        var events, history, complete :=
          SendToGroups(decision.groups, decision.image, decision.caption, transport, historyFile);
        log := log + events;
        historyFile := history;
        if complete {
          // `enviadosHoje.add` and `appendFileSync` of the slot key
          sentToday := sentToday + {decision.slot};
          ledgerFile := Some(LedgerLines(ledgerFile) + [decision.slot]);
        }
      }
    }

    /** `POST /horarios`: the reply is `NormaliseHours` of the body, and a
        saved list replaces horarios.txt. */
    method SetHours(body: HoursBody) returns (reply: HoursReply)
      modifies this`hoursFile
      ensures reply == NormaliseHours(body)
      ensures hoursFile == if reply.Saved? then Some(reply.hours) else old(hoursFile)
    {
      if body.NotAnArray? || body.values == [] {
        return Invalid;
      }
      var hours := SortedUnique(Numbers(body.values));
      hoursFile := Some(hours);
      return Saved(hours);
    }

    /** `POST /grupos`: grupos_check.txt is replaced by the posted groups. */
    method SaveRecipients(groups: seq<Group>)
      modifies this`recipientsFile
      ensures recipientsFile == Some(SaveGroups(groups))
    {
      recipientsFile := Some(SaveGroups(groups));
    }

    /** `processarGrupo` for a message from `from` to `to`, where `chatName`
        is what `getChat` returned (`None` when it threw). */
    method ScanMessage(from: string, to: Option<string>, chatName: Option<string>)
      modifies this`scanFile
      ensures scanFile == ScanResult(old(scanFile), from, to, chatName)
    {
      var fromGroup := EndsWith(from, GroupSuffix);
      var toGroup := to.Some? && EndsWith(to.value, GroupSuffix);
      if fromGroup || toGroup {
        var groupId := if fromGroup then from else to.value;
        if chatName.Some? && !Contains(scanFile, groupId) {
          scanFile := scanFile + Registration(groupId, chatName.value) + "\n";
        }
      }
    }

    /** `/salvar`: the known days' values are read back from data.txt, the
        edited day gets the escaped message, and the file is rewritten. */
    method SaveCaption(day: string, message: string)
      modifies this`captionsFile
      ensures captionsFile == Some(SavedFile(old(captionsFile), day, message))
    {
      var stored := ReadStored(captionsFile);
      stored := stored[day := EscapeLineBreaks(message)];
      captionsFile := Some(Render(stored));
    }

    /** `/copiar-anuncio`: 400 for a missing origin or destination list or
        an unknown origin, 404 when the origin has no image or no caption;
        otherwise every known destination gets a copy of the image under the
        origin's extension and the origin's caption, and data.txt is
        rewritten. */
    method CopyAd(origin: string, destinations: Option<seq<string>>) returns (reply: Reply)
      modifies this`assets, this`captionsFile
      ensures reply == BadRequest <==> destinations.None? || origin !in Days
      ensures reply == SourceNotFound <==>
        (destinations.Some? && origin in Days
         && (ImageOf(old(assets), ImageBase(origin).value).None? || Caption(Captions(old(captionsFile)), origin).None?))
      ensures reply == Done ==>
        var base := ImageBase(origin).value;
        var m := Captions(old(captionsFile));
        assets == CopiedImages(old(assets), old(assets)[ImageOf(old(assets), base).value],
                               FoundExt(old(assets), base), destinations.value)
        && captionsFile == Some(Render(EscapeAll(CopiedTexts(m, m[origin], destinations.value))))
      ensures reply != Done ==> assets == old(assets) && captionsFile == old(captionsFile)
    {
      if origin == "" || destinations.None? {
        return BadRequest;
      }
      var base := ImageBase(origin);
      if base.None? {
        return BadRequest;
      }
      var path, ext := FindImage(assets, base.value);
      if path.None? {
        return SourceNotFound;
      }
      var messages := ReadCaptions(captionsFile);
      if origin !in messages || messages[origin] == "" {
        return SourceNotFound;
      }
      var text := messages[origin];
      var image := assets[path.value];
      assets, messages := CopyToDays(assets, messages, image, ext, text, destinations.value);
      captionsFile := Some(Render(EscapeAll(messages)));
      return Done;
    }

    /** `/apagar-anuncio`: 400 for a missing or unknown day; otherwise the
        day's image files are removed, its caption is dropped, and data.txt
        is rewritten. */
    method DeleteAd(day: string) returns (reply: Reply)
      modifies this`assets, this`captionsFile
      ensures reply == BadRequest <==> day !in Days
      ensures reply != SourceNotFound
      ensures reply == Done ==>
        var base := ImageBase(day).value;
        assets == old(assets) - {base + Exts[0], base + Exts[1]}
        && captionsFile == Some(Render(EscapeAll(Captions(old(captionsFile)) - {day})))
      ensures reply != Done ==> assets == old(assets) && captionsFile == old(captionsFile)
    {
      if day == "" {
        return BadRequest;
      }
      var base := ImageBase(day);
      if base.None? {
        return BadRequest;
      }
      assets := RemoveImages(assets, base.value);
      var messages := ReadCaptions(captionsFile);
      messages := messages - {day};
      captionsFile := Some(Render(EscapeAll(messages)));
      return Done;
    }

    /** `/apagar-todos-anuncios`: both image files of every day are removed
        and data.txt is emptied. */
    method DeleteAllAds()
      modifies this`assets, this`captionsFile
      ensures assets == old(assets) - AdFiles(|Days|)
      ensures captionsFile == Some("")
    {
      assets := RemoveAllImages(assets);
      captionsFile := Some("");
    }

    /** `DELETE /delete-historico-envios`: the history becomes `[]`. */
    method DeleteHistory()
      modifies this`historyFile
      ensures historyFile == Emptied
    {
      historyFile := Emptied;
    }
  }
}
