/** The rules the management page applies before it calls the server: the
    hour picker, the WhatsApp link generator, the password change form, the
    copy form's destinations, the history date filter, the split of a
    scanned group's label, and the emoji picker. */
module Client {
  import opened Wrappers
  import opened Text
  import opened Hours
  import opened Groups
  import opened History
  import opened Uri

  // ---------------------------------------------------------------------
  // The hour picker

  /** One hour `<select>` of the form: not on the page, left at its `null`
      option, or set to an hour. */
  datatype HourSelect = Absent | Unset | Chosen(hour: int)

  /** The values that survive `filter(v => v !== 'null' && v !== null)`,
      as numbers. */
  function Picked(selects: seq<HourSelect>): (hours: seq<int>)
    ensures forall h :: h in hours <==> Chosen(h) in selects
  {
    if selects == [] then []
    else
      var rest := Picked(selects[1..]);
      assert forall s :: s in selects <==> s == selects[0] || s in selects[1..];
      (if selects[0].Chosen? then [selects[0].hour] else []) + rest
  }

  /** The confirm button: the chosen hours, deduplicated and in ascending
      order, or `None` (a warning and no request) when nothing is
      chosen. */
  function ConfirmHours(selects: seq<HourSelect>): (r: Option<seq<int>>)
    ensures r.None? <==> forall i :: 0 <= i < |selects| ==> !selects[i].Chosen?
    ensures r.Some? ==> StrictlyAscending(r.value)
    ensures r.Some? ==> forall h :: h in r.value <==> Chosen(h) in selects
  {
    var hours := SortedUnique(Picked(selects));
    if hours == [] then
      None
    else
      assert exists i :: 0 <= i < |selects| && selects[i].Chosen? by {
        assert hours[0] in hours;
        assert Chosen(hours[0]) in selects;
      }
      Some(hours)
  }

  /** The body of the request the page sends: numbers, which `parseInt`
      on the server reads back unchanged. */
  function AsBody(hours: seq<int>): (values: seq<Option<int>>)
    ensures |values| == |hours|
    ensures forall i :: 0 <= i < |hours| ==> values[i] == Some(hours[i])
  {
    if hours == [] then [] else [Some(hours[0])] + AsBody(hours[1..])
  }

  /** The server stores exactly the list the page confirmed. */
  lemma ConfirmedHoursStored(selects: seq<HourSelect>)
    requires ConfirmHours(selects).Some?
    ensures NormaliseHours(Items(AsBody(ConfirmHours(selects).value))) == Saved(ConfirmHours(selects).value)
  {
    var hours := ConfirmHours(selects).value;
    var body := AsBody(hours);
    var reply := NormaliseHours(Items(body));
    forall h
      ensures h in reply.hours <==> h in hours
    {
      if h in hours {
        var i :| 0 <= i < |hours| && hours[i] == h;
        assert body[i] == Some(h);
      }
      if Some(h) in body {
        var i :| 0 <= i < |body| && body[i] == Some(h);
        assert hours[i] == h;
      }
    }
    AscendingUnique(reply.hours, hours);
  }

  // ---------------------------------------------------------------------
  // The WhatsApp link generator

  predicate IsDigit(c: char) {
    '0' <= c <= '9'
  }

  /** `/^55\d{11}$/`: `55` followed by exactly eleven ASCII digits. */
  predicate ValidNumber(n: string) {
    |n| == 13 && n[0] == '5' && n[1] == '5' && forall i :: 2 <= i < 13 ==> IsDigit(n[i])
  }

  const LinkPrefix: string := "https://wa.me/"
  const TextParameter: string := "?text="

  /** What the generator shows: an error for a bad number, or the link. */
  datatype LinkResult = InvalidNumber | Link(url: string)

  /** The generate button: both fields are trimmed; the number must match
      the pattern, and the text goes into the link through
      `encodeURIComponent`. */
  function WhatsAppLink(number: string, text: string): (r: LinkResult)
    ensures r.Link? <==> ValidNumber(Trim(number))
  {
    var n := Trim(number);
    if n == "" || !ValidNumber(n) then InvalidNumber
    else Link(LinkPrefix + n + TextParameter + Encode(Trim(text)))
  }

  /** A generated link carries the trimmed number and, in its single `text`
      parameter, the trimmed text, which `decodeURIComponent` gives back;
      the encoded text holds no `&`, `#` or space that would end the
      parameter early. */
  lemma LinkReadsBack(number: string, text: string)
    requires WhatsAppLink(number, text).Link?
    ensures var url := WhatsAppLink(number, text).url;
      var start := |LinkPrefix| + 13 + |TextParameter|;
      && |url| >= start
      && url[..|LinkPrefix|] == LinkPrefix
      && url[|LinkPrefix|..|LinkPrefix| + 13] == Trim(number)
      && url[|LinkPrefix| + 13..start] == TextParameter
      && Decode(url[start..]) == Some(Trim(text))
      && forall i :: start <= i < |url| ==> url[i] != '&' && url[i] != '#' && url[i] != ' '
  {
    var encoded := Encode(Trim(text));
    assert |Trim(number)| == 13;
    Pieces(LinkPrefix, Trim(number), TextParameter, encoded);
    DecodeEncode(Trim(text));
    EncodedPlain(Trim(text));
  }

  /** `encodeURIComponent` leaves no `&`, `#` or space in its output. */
  lemma EncodedPlain(s: string)
    ensures forall i :: 0 <= i < |Encode(s)| ==> Encode(s)[i] != '&' && Encode(s)[i] != '#' && Encode(s)[i] != ' '
  {
    var e := Encode(s);
    EncodeSafe(s);
    forall i | 0 <= i < |e|
      ensures e[i] != '&' && e[i] != '#' && e[i] != ' '
    {
      SafeIsPlain(e[i]);
    }
  }

  lemma SafeIsPlain(c: char)
    requires UriSafe(c)
    ensures c != '&' && c != '#' && c != ' '
  {
  }

  /** Where the three fixed pieces and the encoded text sit in the link. */
  lemma Pieces(p: string, n: string, q: string, e: string)
    ensures var url := p + n + q + e;
      && url[..|p|] == p
      && url[|p|..|p| + |n|] == n
      && url[|p| + |n|..|p| + |n| + |q|] == q
      && url[|p| + |n| + |q|..] == e
      && forall i :: |p| + |n| + |q| <= i < |url| ==> url[i] == e[i - (|p| + |n| + |q|)]
  {
  }

  // ---------------------------------------------------------------------
  // The password change form

  /** An account as the email confirmation step keeps it in
      `dadosUsuarioProvisorio`. */
  datatype Account = Account(id: string, login: string, email: string)

  /** What the form does: one of its four refusals, or the request it
      sends to `/alterar-senha`. */
  datatype PasswordChange =
    | EmptyField
    | Mismatch
    | TooShort
    | NotConfirmed
    | Request(id: string, login: string, password: string, email: string)

  /** The change button over the two fields and the confirmed account, if
      any: the fields are trimmed and checked in this order: both filled,
      equal, at least four characters, an account confirmed; the request
      is for the first confirmed account. */
  function ChangePassword(password: string, confirmation: string, confirmed: seq<Account>): (r: PasswordChange)
    ensures r == EmptyField <==> Trim(password) == "" || Trim(confirmation) == ""
    ensures r == Mismatch <==> Trim(password) != "" && Trim(confirmation) != "" && Trim(password) != Trim(confirmation)
    ensures r == TooShort <==>
      Trim(password) != "" && Trim(password) == Trim(confirmation) && |Trim(password)| < 4
    ensures r == NotConfirmed <==> Trim(password) == Trim(confirmation) && |Trim(password)| >= 4 && confirmed == []
    ensures r.Request? <==> Trim(password) == Trim(confirmation) && |Trim(password)| >= 4 && confirmed != []
    ensures r.Request? ==>
      r.password == Trim(password) && r.id == confirmed[0].id && r.login == confirmed[0].login && r.email == confirmed[0].email
  {
    var p := Trim(password);
    var q := Trim(confirmation);
    if p == "" || q == "" then EmptyField
    else if p != q then Mismatch
    else if |p| < 4 then TooShort
    else if |confirmed| == 0 then NotConfirmed
    else
      var account := confirmed[0];
      Request(account.id, account.login, p, account.email)
  }

  // ---------------------------------------------------------------------
  // The copy form

  /** A day's checkbox of the copy form, `checkbox_<day>`. */
  datatype Checkbox = Checkbox(id: string, checked: bool)

  const CheckboxPrefix: string := "checkbox_"

  /** `pattern` occurs in `s` at `i` and at no earlier index. */
  predicate FirstAt(s: string, pattern: string, i: int) {
    0 <= i && i + |pattern| <= |s| && s[i..i + |pattern|] == pattern
    && forall j :: 0 <= j < i ==> !StartsWith(s[j..], pattern)
  }

  /** `s.replace(pattern, '')` with a string pattern: the first occurrence
      removed. */
  function RemoveFirst(s: string, pattern: string): (r: string)
    ensures !Contains(s, pattern) ==> r == s
    ensures Contains(s, pattern) ==>
      exists i :: FirstAt(s, pattern, i) && r == s[..i] + s[i + |pattern|..]
  {
    var i := FindStr(s, pattern);
    if i < 0 then s
    else
      assert FirstAt(s, pattern, i);
      s[..i] + s[i + |pattern|..]
  }

  /** The day a checkbox stands for: its id without `checkbox_`. */
  function DayOf(box: Checkbox): string {
    RemoveFirst(box.id, CheckboxPrefix)
  }

  /** Some checked box stands for `day`. */
  predicate Ticked(boxes: seq<Checkbox>, day: string) {
    exists i :: 0 <= i < |boxes| && boxes[i].checked && DayOf(boxes[i]) == day
  }

  /** The days the copy form sends: those of the checked boxes, in page
      order, except the origin day. */
  function Destinations(boxes: seq<Checkbox>, origin: string): seq<string> {
    if boxes == [] then []
    else
      var rest := Destinations(boxes[..|boxes| - 1], origin);
      var box := boxes[|boxes| - 1];
      if box.checked && DayOf(box) != origin then rest + [DayOf(box)] else rest
  }

  /** The `forEach` over the checkboxes that pushes onto `diasDestino`. */
  method CollectDestinations(boxes: seq<Checkbox>, origin: string) returns (days: seq<string>)
    ensures days == Destinations(boxes, origin)
  {
    days := [];
    var i := 0;
    while i < |boxes|
      invariant 0 <= i <= |boxes|
      invariant days == Destinations(boxes[..i], origin)
    {
      if boxes[i].checked {
        var day := RemoveFirst(boxes[i].id, CheckboxPrefix);
        if day != origin {
          days := days + [day];
        }
      }
      assert boxes[..i + 1][..i] == boxes[..i];
      i := i + 1;
    }
    assert boxes[..i] == boxes;
  }

  lemma TickedSnoc(boxes: seq<Checkbox>, day: string)
    requires boxes != []
    ensures Ticked(boxes, day) <==>
      Ticked(boxes[..|boxes| - 1], day) || (boxes[|boxes| - 1].checked && DayOf(boxes[|boxes| - 1]) == day)
  {
    var init := boxes[..|boxes| - 1];
    if Ticked(boxes, day) {
      var i :| 0 <= i < |boxes| && boxes[i].checked && DayOf(boxes[i]) == day;
      if i < |init| {
        assert init[i] == boxes[i];
      }
    }
    if Ticked(init, day) {
      var i :| 0 <= i < |init| && init[i].checked && DayOf(init[i]) == day;
      assert boxes[i] == init[i];
    }
  }

  /** A day is sent exactly when some checked box stands for it and it is
      not the origin. */
  lemma {:induction false} DestinationsSpec(boxes: seq<Checkbox>, origin: string)
    ensures forall d :: d in Destinations(boxes, origin) <==> d != origin && Ticked(boxes, d)
  {
    if boxes != [] {
      DestinationsSpec(boxes[..|boxes| - 1], origin);
      forall d | true
        ensures d in Destinations(boxes, origin) <==> d != origin && Ticked(boxes, d)
      {
        TickedSnoc(boxes, d);
      }
    }
  }

  /** The confirm button: the destinations, or `None` (a message and no
      request) when there are none. */
  function CopyRequest(boxes: seq<Checkbox>, origin: string): (r: Option<seq<string>>)
    ensures r.None? <==> forall i :: 0 <= i < |boxes| && boxes[i].checked ==> DayOf(boxes[i]) == origin
    ensures r.Some? ==> origin !in r.value
  {
    var days := Destinations(boxes, origin);
    DestinationsSpec(boxes, origin);
    if days == [] then
      assert forall i :: 0 <= i < |boxes| && boxes[i].checked ==> DayOf(boxes[i]) == origin by {
        forall i | 0 <= i < |boxes| && boxes[i].checked
          ensures DayOf(boxes[i]) == origin
        {
          assert Ticked(boxes, DayOf(boxes[i]));
        }
      }
      None
    else
      assert days[0] in days;
      Some(days)
  }

  /** The page's checkbox for a day. */
  lemma CheckboxDay(day: string)
    ensures RemoveFirst(CheckboxPrefix + day, CheckboxPrefix) == day
  {
    var s := CheckboxPrefix + day;
    assert StartsWith(s, CheckboxPrefix) by {
      assert s[..|CheckboxPrefix|] == CheckboxPrefix;
    }
    assert FindStr(s, CheckboxPrefix) == 0;
    assert s[|CheckboxPrefix|..] == day;
  }

  // ---------------------------------------------------------------------
  // The history page

  /** The date filter: every record for the empty selection, otherwise the
      records of the selected date, in the order they are given. */
  function FilterByDate(records: seq<Record>, selected: Option<Date>): (r: seq<Record>)
    ensures selected.None? ==> r == records
    ensures |r| <= |records|
    ensures selected.Some? ==> forall x :: x in r <==> x in records && x.date == selected.value
    ensures selected.Some? ==> forall x ::
      multiset(r)[x] == if x.date == selected.value then multiset(records)[x] else 0
  {
    if selected.None? || records == [] then records
    else
      var rest := FilterByDate(records[1..], selected);
      assert forall x :: x in records <==> x == records[0] || x in records[1..];
      assert records == [records[0]] + records[1..];
      assert multiset(records) == multiset{records[0]} + multiset(records[1..]);
      (if records[0].date == selected.value then [records[0]] else []) + rest
  }

  /** Filtering again by the same date changes nothing. */
  lemma {:induction false} FilterIdempotent(records: seq<Record>, selected: Option<Date>)
    ensures FilterByDate(FilterByDate(records, selected), selected) == FilterByDate(records, selected)
  {
    if selected.Some? {
      var f := FilterByDate(records, selected);
      forall i | 0 <= i < |f|
        ensures f[i].date == selected.value
      {
        assert f[i] in f;
      }
      FilterKeepsMatching(f, selected.value);
    }
  }

  /** Records all of the selected date pass the filter unchanged. */
  lemma {:induction false} FilterKeepsMatching(records: seq<Record>, d: Date)
    requires forall i :: 0 <= i < |records| ==> records[i].date == d
    ensures FilterByDate(records, Some(d)) == records
  {
    if records != [] {
      FilterKeepsMatching(records[1..], d);
      assert records == [records[0]] + records[1..];
    }
  }

  /** `new Date(year, month - 1, day)` ordering: `a` is a later day than
      `b`. */
  predicate Later(a: Date, b: Date) {
    a.year > b.year
    || (a.year == b.year && a.month > b.month)
    || (a.year == b.year && a.month == b.month && a.day > b.day)
  }

  ghost predicate NewestFirst(dates: seq<Date>) {
    forall i, j :: 0 <= i < j < |dates| ==> Later(dates[i], dates[j])
  }

  /** `d` put into a list that is newest first, unless already there. */
  function InsertDate(d: Date, dates: seq<Date>): (r: seq<Date>)
    requires NewestFirst(dates)
    ensures NewestFirst(r)
    ensures forall x :: x in r <==> x == d || x in dates
  {
    if dates == [] then [d]
    else if d == dates[0] then dates
    else if Later(d, dates[0]) then
      assert forall j :: 0 <= j < |dates| ==> Later(d, dates[j]) by {
        forall j | 0 <= j < |dates|
          ensures Later(d, dates[j])
        {
          if j > 0 {
            assert Later(dates[0], dates[j]);
          }
        }
      }
      [d] + dates
    else
      var rest := InsertDate(d, dates[1..]);
      assert forall x :: x in dates <==> x == dates[0] || x in dates[1..];
      var r := [dates[0]] + rest;
      assert forall j :: 0 <= j < |rest| ==> Later(dates[0], rest[j]) by {
        forall j | 0 <= j < |rest|
          ensures Later(dates[0], rest[j])
        {
          assert rest[j] in rest;
          if rest[j] != d {
            var k :| 1 <= k < |dates| && dates[k] == rest[j];
            assert Later(dates[0], dates[k]);
          }
        }
      }
      assert forall i, j :: 0 <= i < j < |r| ==> Later(r[i], r[j]) by {
        forall i, j | 0 <= i < j < |r|
          ensures Later(r[i], r[j])
        {
          if i > 0 {
            assert r[i] == rest[i - 1] && r[j] == rest[j - 1];
          }
        }
      }
      r
  }

  /** Some record was sent on day `d`. */
  predicate Dated(records: seq<Record>, d: Date) {
    exists i :: 0 <= i < |records| && records[i].date == d
  }

  /** The options of the date filter: each date of the records once,
      newest first. */
  function DateOptions(records: seq<Record>): (dates: seq<Date>)
    ensures NewestFirst(dates)
    ensures forall d :: d in dates <==> Dated(records, d)
  {
    if records == [] then []
    else
      var init := records[..|records| - 1];
      var rest := DateOptions(init);
      var last := records[|records| - 1];
      var r := InsertDate(last.date, rest);
      assert forall d :: Dated(records, d) <==> Dated(init, d) || d == last.date by {
        forall d | Dated(records, d)
          ensures Dated(init, d) || d == last.date
        {
          var i :| 0 <= i < |records| && records[i].date == d;
          if i < |init| {
            assert init[i] == records[i];
          }
        }
        forall d | Dated(init, d)
          ensures Dated(records, d)
        {
          var i :| 0 <= i < |init| && init[i].date == d;
          assert records[i] == init[i];
        }
      }
      r
  }

  /** Newest first leaves no room for a date to appear twice. */
  lemma OptionsDistinct(records: seq<Record>)
    ensures var dates := DateOptions(records);
      forall i, j :: 0 <= i < j < |dates| ==> dates[i] != dates[j]
  {
    var dates := DateOptions(records);
    forall i, j | 0 <= i < j < |dates|
      ensures dates[i] != dates[j]
    {
      assert Later(dates[i], dates[j]);
    }
  }

  /** Every option selects at least one record, and the options with the
      empty selection cover the whole list. */
  lemma OptionSelects(records: seq<Record>, d: Date)
    requires d in DateOptions(records)
    ensures FilterByDate(records, Some(d)) != []
  {
    var i :| 0 <= i < |records| && records[i].date == d;
    assert records[i] in FilterByDate(records, Some(d));
  }

  // ---------------------------------------------------------------------
  // The scanned groups table

  const LabelSeparator: string := " - "

  /** The id and name cells of a scanned group: the first two pieces of
      the label split at `' - '`, or the whole label and an empty name when
      it has no `' - '`. */
  function SplitLabel(entry: string): (cells: (string, string))
    ensures !Contains(entry, LabelSeparator) ==> cells == (entry, "")
  {
    if !Contains(entry, LabelSeparator) then (entry, "")
    else
      var parts := SplitStr(entry, LabelSeparator);
      (parts[0], if |parts| > 1 then parts[1] else "")
  }

  /** A line `processarGrupo` wrote reaches the page as the `id` that
      `GET /grupos` cuts from it at `|` and trims, and the page splits that
      back into the group's id and its name: when the id is non-empty,
      trimmed and has no space or `|` (WhatsApp group ids are digits, `-`
      and `@g.us`), and the name is non-empty, trimmed, has no `|` and does
      not contain the separator. */
  lemma RegistrationSplits(groupId: string, name: string)
    requires groupId != [] && IsTrimmed(groupId) && ' ' !in groupId && '|' !in groupId
    requires name != [] && IsTrimmed(name) && '|' !in name && !Contains(name, LabelSeparator)
    ensures SplitLabel(ParseEntry(Registration(groupId, name)).id) == (groupId, name)
  {
    var line := Registration(groupId, name);
    assert Split(line, '|') == [line] by {
      assert '|' !in line;
      assert Find(line, '|') == -1;
    }
    assert IsTrimmed(line) by {
      assert line[0] == groupId[0];
      assert line[|line| - 1] == name[|name| - 1];
    }
    TrimOfTrimmed(line);
    assert ParseEntry(line).id == line;
    LabelSplits(groupId, name);
  }

  /** The label `id - name` splits back into the id and the name. */
  lemma LabelSplits(groupId: string, name: string)
    requires ' ' !in groupId && !Contains(name, LabelSeparator)
    ensures SplitLabel(Registration(groupId, name)) == (groupId, name)
  {
    var entry := Registration(groupId, name);
    assert entry == groupId + LabelSeparator + name;
    FindStrAfter(groupId, name);
    var i := FindStr(entry, LabelSeparator);
    assert entry[..i] == groupId;
    assert entry[i + |LabelSeparator|..] == name;
    assert SplitStr(name, LabelSeparator) == [name];
    assert SplitStr(entry, LabelSeparator) == [groupId, name];
  }

  /** The separator is found right after an id without spaces: every
      earlier position holds a character of the id, and the separator
      starts with a space. */
  lemma FindStrAfter(a: string, b: string)
    requires ' ' !in a
    ensures FindStr(a + LabelSeparator + b, LabelSeparator) == |a|
  {
    var s := a + LabelSeparator + b;
    ContainsInfix(a, LabelSeparator, b);
    var i := FindStr(s, LabelSeparator);
    assert s[|a|..][..|LabelSeparator|] == LabelSeparator;
    assert StartsWith(s[|a|..], LabelSeparator);
    assert s[i] == ' ' by {
      assert s[i..i + |LabelSeparator|][0] == s[i];
    }
    assert forall j :: 0 <= j < |a| ==> s[j] == a[j];
  }

  // ---------------------------------------------------------------------
  // The emoji picker

  /** A click on an emoji: the selection `[start, end)` of the text is
      replaced by the emoji, and the caret goes right after it. */
  function InsertEmoji(text: string, start: nat, end: nat, emoji: string): (r: (string, nat))
    requires start <= end <= |text|
    ensures |r.0| == |text| - (end - start) + |emoji|
    ensures r.1 == start + |emoji| && r.1 <= |r.0|
    ensures r.0[..start] == text[..start]
    ensures r.0[start..r.1] == emoji
    ensures r.0[r.1..] == text[end..]
  {
    var s := text[..start] + emoji + text[end..];
    assert s[..start] == text[..start];
    assert s[start..start + |emoji|] == emoji;
    assert s[start + |emoji|..] == text[end..];
    (s, start + |emoji|)
  }

  /** Deleting what was just inserted gives back the text without the
      selection; with an empty selection, the text as it was. */
  lemma InsertThenDelete(text: string, start: nat, end: nat, emoji: string)
    requires start <= end <= |text|
    ensures var (s, caret) := InsertEmoji(text, start, end, emoji);
      InsertEmoji(s, start, caret, "").0 == text[..start] + text[end..]
    ensures start == end ==> var (s, caret) := InsertEmoji(text, start, end, emoji);
      InsertEmoji(s, start, caret, "").0 == text
  {
    var (s, caret) := InsertEmoji(text, start, end, emoji);
    var t := InsertEmoji(s, start, caret, "").0;
    assert t == s[..start] + s[caret..];
    if start == end {
      assert text[..start] + text[start..] == text;
    }
  }
}
