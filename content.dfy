/** The per-day content: the image files under assets/ and the captions
    in data.txt, one line `<day>: <caption>` per day with line breaks
    escaped as the two characters `\n`. */
module Content {
  import opened Wrappers
  import opened Text

  /** `ordemDias`: the six broadcast days, in the order data.txt lists them. */
  const Days: seq<string> := ["segunda", "terca", "quarta", "quinta", "sexta", "sabado"]

  /** The file extensions tried, in this order, when looking for a day's image. */
  const Exts: seq<string> := [".jpg", ".png"]

  type Bytes = seq<bv8>

  /** `diaMap`: the day name of a weekday number (1 is Monday). */
  function DayName(weekday: int): string
    requires 1 <= weekday <= 6
  {
    Days[weekday - 1]
  }

  /** `nomesDias` (and `imagemMap` through `diaMap`): the base name of a
      day's image file, for the six known day names only. */
  function ImageBase(day: string): (base: Option<string>)
    ensures base.Some? <==> day in Days
  {
    if day == "segunda" then Some("diaum")
    else if day == "terca" then Some("diadois")
    else if day == "quarta" then Some("diatres")
    else if day == "quinta" then Some("diaquatro")
    else if day == "sexta" then Some("diacinco")
    else if day == "sabado" then Some("diaseis")
    else None
  }

  lemma ImageBasesDistinct(d1: string, d2: string)
    requires d1 in Days && d2 in Days && d1 != d2
    ensures ImageBase(d1).value != ImageBase(d2).value
  {
  }

  /** The image a day's base name resolves to: `.jpg` wins over `.png`,
      and there is none only when neither file exists. */
  function ImageOf(assets: map<string, Bytes>, base: string): (path: Option<string>)
    ensures path.Some? <==> base + Exts[0] in assets || base + Exts[1] in assets
    ensures base + Exts[0] in assets ==> path == Some(base + Exts[0])
    ensures path.Some? ==> path.value in assets
  {
    if base + Exts[0] in assets then Some(base + Exts[0])
    else if base + Exts[1] in assets then Some(base + Exts[1])
    else None
  }

  /** The extension of the image `ImageOf` finds. */
  function FoundExt(assets: map<string, Bytes>, base: string): string {
    if base + Exts[0] in assets then Exts[0] else Exts[1]
  }

  /** The loop over `['.jpg', '.png']` that stops at the first file that
      exists, remembering its extension. */
  method FindImage(assets: map<string, Bytes>, base: string) returns (path: Option<string>, ext: string)
    ensures path == ImageOf(assets, base)
    ensures path.Some? ==> ext == FoundExt(assets, base) && path.value == base + ext
  {
    path, ext := None, "";
    var i := 0;
    while i < |Exts| && base + Exts[i] !in assets
      invariant 0 <= i <= |Exts|
      invariant forall j :: 0 <= j < i ==> base + Exts[j] !in assets
    {
      i := i + 1;
    }
    if i < |Exts| {
      path, ext := Some(base + Exts[i]), Exts[i];
    }
  }

  /** Two image files of known days with the extensions tried are the same
      file only for the same day and extension. */
  lemma {:induction false} ImageKeysDistinct(d1: string, e1: string, d2: string, e2: string)
    requires d1 in Days && d2 in Days && e1 in Exts && e2 in Exts
    requires ImageBase(d1).value + e1 == ImageBase(d2).value + e2
    ensures d1 == d2 && e1 == e2
  {
    var b1, b2 := ImageBase(d1).value, ImageBase(d2).value;
    assert |e1| == 4 && |e2| == 4;
    assert b1 == (b1 + e1)[..|b1|];
    if |b1| == |b2| {
      assert b2 == (b2 + e2)[..|b2|];
      assert e1 == (b1 + e1)[|b1|..];
      assert e2 == (b2 + e2)[|b2|..];
      if d1 != d2 {
        ImageBasesDistinct(d1, d2);
      }
    }
  }

  // ---------------------------------------------------------------------
  // Escaping of line breaks

  /** `mensagem.replace(/\r?\n/g, '\\n')`, as `/salvar` escapes a caption. */
  function EscapeLineBreaks(s: string): (r: string)
    ensures '\n' !in r
  {
    if s == [] then []
    else if |s| >= 2 && s[0] == '\r' && s[1] == '\n' then "\\n" + EscapeLineBreaks(s[2..])
    else if s[0] == '\n' then "\\n" + EscapeLineBreaks(s[1..])
    else [s[0]] + EscapeLineBreaks(s[1..])
  }

  /** `replace(/\n/g, '\\n')`, as the copy and delete routes escape a caption. */
  function EscapeNewlines(s: string): (r: string)
    ensures '\n' !in r
    ensures r == [] <==> s == []
  {
    if s == [] then []
    else if s[0] == '\n' then "\\n" + EscapeNewlines(s[1..])
    else [s[0]] + EscapeNewlines(s[1..])
  }

  /** `replace(/\\n/g, '\n')`: every backslash followed by `n`, read left to
      right, becomes a line break. */
  function Unescape(s: string): string {
    if s == [] then []
    else if |s| >= 2 && s[0] == '\\' && s[1] == 'n' then "\n" + Unescape(s[2..])
    else [s[0]] + Unescape(s[1..])
  }

  /** A caption that survives escaping: no carriage return directly before
      a line break, and no backslash directly before an `n`. */
  ghost predicate Plain(t: string) {
    forall i :: 0 <= i < |t| - 1 ==> !(t[i] == '\r' && t[i + 1] == '\n') && !(t[i] == '\\' && t[i + 1] == 'n')
  }

  lemma EscapeLineBreaksHead(t: string)
    requires t != [] && t[0] != 'n'
    ensures EscapeLineBreaks(t) != [] && EscapeLineBreaks(t)[0] != 'n'
  {
  }

  /** Escaping a plain caption and unescaping it gives it back. */
  lemma {:induction false} UnescapeEscape(t: string)
    requires Plain(t)
    ensures Unescape(EscapeLineBreaks(t)) == t
  {
    if t != [] {
      assert Plain(t[1..]);
      assert !(|t| >= 2 && t[0] == '\r' && t[1] == '\n');
      if t[0] == '\n' {
        UnescapeEscape(t[1..]);
        assert ("\\n" + EscapeLineBreaks(t[1..]))[2..] == EscapeLineBreaks(t[1..]);
      } else {
        UnescapeEscape(t[1..]);
        var e := EscapeLineBreaks(t[1..]);
        if t[0] == '\\' && e != [] {
          assert t[1] != 'n';
          EscapeLineBreaksHead(t[1..]);
        }
        assert ([t[0]] + e)[1..] == e;
      }
    }
  }

  /** On a text without line breaks, unescaping then escaping again is the
      identity. */
  lemma {:induction false} EscapeUnescape(y: string)
    requires '\n' !in y
    ensures EscapeNewlines(Unescape(y)) == y
  {
    if y != [] {
      if |y| >= 2 && y[0] == '\\' && y[1] == 'n' {
        assert '\n' !in y[2..];
        EscapeUnescape(y[2..]);
        assert ("\n" + Unescape(y[2..]))[1..] == Unescape(y[2..]);
      } else {
        assert '\n' !in y[1..];
        EscapeUnescape(y[1..]);
        assert ([y[0]] + Unescape(y[1..]))[1..] == Unescape(y[1..]);
      }
    }
  }

  lemma NotInTrim(s: string, c: char)
    requires c !in s
    ensures c !in Trim(s)
  {
    var t := TrimStart(s);
    assert c !in t;
  }

  /** What the reader makes of the text after a line's first `:`. */
  function ReadValue(x: string): string {
    Unescape(Trim(x))
  }

  /** A caption as the reader produces it. */
  ghost predicate Stable(v: string) {
    Unescape(Trim(EscapeNewlines(v))) == v
  }

  /** What the reader produces from a line's text is unchanged by the copy
      and delete routes' escaping followed by the reader. */
  lemma ReadValueStable(x: string)
    requires '\n' !in x
    ensures Stable(ReadValue(x))
  {
    var y := Trim(x);
    NotInTrim(x, '\n');
    EscapeUnescape(y);
    TrimIdempotent(x);
  }

  // ---------------------------------------------------------------------
  // Reading data.txt: `lerMensagensDataTxt`

  /** One line of data.txt as the scheduler's reader takes it: split at
      every `:`, the first piece (non-empty) is the day, the rest joined
      again with `:` is the caption, trimmed and unescaped. */
  function ReadLine(m: map<string, string>, line: string): map<string, string> {
    var parts := Split(line, ':');
    if parts[0] != "" && |parts| > 1 then m[Trim(parts[0]) := ReadValue(Join(parts[1..], ':'))]
    else m
  }

  function ReadAll(m: map<string, string>, lines: seq<string>): map<string, string>
    decreases |lines|
  {
    if lines == [] then m else ReadAll(ReadLine(m, lines[0]), lines[1..])
  }

  /** The caption map of data.txt; a missing file has none. */
  function Captions(file: Option<string>): map<string, string> {
    match file
    case None => map[]
    case Some(text) => ReadAll(map[], Split(text, '\n'))
  }

  /** `lerMensagensDataTxt`: fills the map line by line, a later line for
      the same day replacing an earlier one. */
  method ReadCaptions(file: Option<string>) returns (m: map<string, string>)
    ensures m == Captions(file)
  {
    m := map[];
    if file.Some? {
      var lines := Split(file.value, '\n');
      var i := 0;
      while i < |lines|
        invariant 0 <= i <= |lines|
        invariant ReadAll(m, lines[i..]) == ReadAll(map[], lines)
      {
        ghost var before := m;
        var parts := Split(lines[i], ':');
        if parts[0] != "" && |parts| > 1 {
          m := m[Trim(parts[0]) := Unescape(Trim(Join(parts[1..], ':')))];
        }
        ReadAllStep(before, m, lines, i);
        i := i + 1;
      }
      assert lines[i..] == [];
    }
  }

  /** One turn of the reading loop: `after` is `before` with line `i` read. */
  lemma ReadAllStep(before: map<string, string>, after: map<string, string>, lines: seq<string>, i: nat)
    requires i < |lines|
    requires var parts := Split(lines[i], ':');
      after == if parts[0] != "" && |parts| > 1 then before[Trim(parts[0]) := ReadValue(Join(parts[1..], ':'))] else before
    ensures ReadAll(before, lines[i..]) == ReadAll(after, lines[i + 1..])
  {
    var t := lines[i..];
    assert t != [] && t[0] == lines[i] && t[1..] == lines[i + 1..];
    assert ReadLine(before, lines[i]) == after;
    assert ReadAll(before, t) == ReadAll(ReadLine(before, t[0]), t[1..]);
  }

  /** One turn of `/salvar`'s reading loop: `after` is `before` with line
      `i` taken. */
  lemma StoreAllStep(before: map<string, string>, after: map<string, string>, lines: seq<string>, i: nat)
    requires i < |lines|
    requires var parts := Split(lines[i], ':');
      after == if lines[i] != "" && Trim(parts[0]) in Days then before[Trim(parts[0]) := Trim(Join(parts[1..], ':'))] else before
    ensures StoreAll(before, lines[i..]) == StoreAll(after, lines[i + 1..])
  {
    StoreLineIs(before, after, lines[i]);
    StoreAllUnfold(before, lines, i);
  }

  lemma StoreLineIs(before: map<string, string>, after: map<string, string>, line: string)
    requires var parts := Split(line, ':');
      after == if line != "" && Trim(parts[0]) in Days then before[Trim(parts[0]) := Trim(Join(parts[1..], ':'))] else before
    ensures StoreLine(before, line) == after
  {
  }

  lemma StoreAllUnfold(m: map<string, string>, lines: seq<string>, i: nat)
    requires i < |lines|
    ensures StoreAll(m, lines[i..]) == StoreAll(StoreLine(m, lines[i]), lines[i + 1..])
  {
    var t := lines[i..];
    assert t != [] && t[0] == lines[i] && t[1..] == lines[i + 1..];
  }


  /** Every caption the reader stores is `Stable`. */
  lemma ReadLineStable(m: map<string, string>, line: string)
    requires '\n' !in line
    requires forall d :: d in m ==> Stable(m[d])
    ensures forall d :: d in ReadLine(m, line) ==> Stable(ReadLine(m, line)[d])
  {
    forall x | '\n' !in x
      ensures Stable(ReadValue(x))
    {
      ReadValueStable(x);
    }
    ReadLineKeeps(m, line, Stable);
  }

  lemma MapUpdateKeeps(m: map<string, string>, r: map<string, string>, key: string, value: string, P: string -> bool)
    requires forall d :: d in m ==> P(m[d])
    requires P(value) && r == m[key := value]
    ensures forall d :: d in r ==> P(r[d])
  {
  }

  /** A property of every value the reader can produce from a line, held by
      the map so far, still holds after the line. */
  lemma ReadLineKeeps(m: map<string, string>, line: string, P: string -> bool)
    requires '\n' !in line
    requires forall d :: d in m ==> P(m[d])
    requires forall x :: '\n' !in x ==> P(ReadValue(x))
    ensures forall d :: d in ReadLine(m, line) ==> P(ReadLine(m, line)[d])
  {
    var parts := Split(line, ':');
    if parts[0] != "" && |parts| > 1 {
      var value := Join(parts[1..], ':');
      RestNoBreak(line, ':');
      assert P(ReadValue(value));
      MapUpdateKeeps(m, ReadLine(m, line), Trim(parts[0]), ReadValue(value), P);
    }
  }

  /** What follows the first separator of a line has no line break. */
  lemma RestNoBreak(line: string, c: char)
    requires '\n' !in line
    ensures '\n' !in Join(Split(line, c)[1..], c)
  {
    var parts := Split(line, c);
    var value := Join(parts[1..], c);
    if |parts| == 1 {
      assert value == "";
    } else {
      SplitHead(line, c);
      assert line == parts[0] + [c] + value;
      forall k | 0 <= k < |value|
        ensures value[k] != '\n'
      {
        assert value[k] == line[|parts[0]| + 1 + k];
      }
    }
  }

  /** Splitting at the first separator: what follows it is the rest of the
      pieces joined again, so a caption may itself contain `:`. */
  lemma SplitHead(s: string, c: char)
    ensures |Split(s, c)| > 1 ==> s == Split(s, c)[0] + [c] + Join(Split(s, c)[1..], c)
  {
    var parts := Split(s, c);
    JoinSplit(s, c);
    if |parts| > 1 {
      assert Join(parts, c) == parts[0] + [c] + Join(parts[1..], c);
    }
  }


  lemma {:induction false} ReadAllAppend(m: map<string, string>, a: seq<string>, b: seq<string>)
    ensures ReadAll(m, a + b) == ReadAll(ReadAll(m, a), b)
    decreases |a|
  {
    if a != [] {
      assert (a + b)[0] == a[0];
      assert (a + b)[1..] == a[1..] + b;
      ReadAllAppend(ReadLine(m, a[0]), a[1..], b);
    } else {
      assert a + b == b;
    }
  }

  // ---------------------------------------------------------------------
  // Writing data.txt

  /** The line written for a day. */
  function CaptionLine(day: string, value: string): string {
    day + ": " + value
  }

  /** `ordemDias.filter(d => mapa[d]).map(d => `${d}: ${mapa[d]}`)`, for a
      list of days. */
  function RenderLines(m: map<string, string>, days: seq<string>): seq<string> {
    if days == [] then []
    else
      (if days[0] in m && m[days[0]] != "" then [CaptionLine(days[0], m[days[0]])] else [])
      + RenderLines(m, days[1..])
  }

  /** The text data.txt is rewritten with: the known days that have a
      non-empty value, in week order, each on its own line. */
  function Render(m: map<string, string>): string {
    Join(RenderLines(m, Days), '\n') + "\n"
  }

  /** The given days that have a non-empty value in `m`, each with `f` of
      its value. */
  ghost function Present(m: map<string, string>, days: seq<string>, f: string -> string): map<string, string> {
    map d | d in days && d in m && m[d] != "" :: f(m[d])
  }

  /** The day and the text of a written line come back out of the split at
      the first `:`. */
  lemma {:induction false} LineParts(day: string, value: string)
    requires day != "" && ':' !in day
    ensures Split(CaptionLine(day, value), ':')[0] == day
    ensures |Split(CaptionLine(day, value), ':')| > 1
    ensures Join(Split(CaptionLine(day, value), ':')[1..], ':') == " " + value
  {
    var line := CaptionLine(day, value);
    assert line == day + [':'] + (" " + value);
    FindFirst(day, ':', " " + value);
    assert line[..|day|] == day;
    assert line[|day| + 1..] == " " + value;
    SplitHead(line, ':');
    var parts := Split(line, ':');
    assert parts == [day] + Split(" " + value, ':');
    assert day + [':'] + (" " + value) == day + [':'] + Join(parts[1..], ':');
  }

  /** The day names are plain words: no white space at either end, no `:`
      and no line break. */
  lemma DayNamesPlain(day: string)
    requires day in Days
    ensures day != "" && IsTrimmed(day) && ':' !in day && '\n' !in day
  {
  }

  /** A caption containing `:` is read back whole. */
  lemma {:induction false} ColonsSurvive(acc: map<string, string>, day: string, value: string)
    requires day in Days
    ensures ReadLine(acc, CaptionLine(day, value)) == acc[day := ReadValue(value)]
  {
    DayNamesPlain(day);
    TrimOfTrimmed(day);
    LineParts(day, value);
    assert " " + value == [' '] + value;
    TrimSpaceBefore(' ', value);
  }

  lemma {:induction false} RenderedLinesHaveNoBreak(m: map<string, string>, days: seq<string>)
    requires forall d :: d in days ==> '\n' !in d
    requires forall d :: d in days && d in m ==> '\n' !in m[d]
    ensures forall l :: l in RenderLines(m, days) ==> '\n' !in l
  {
    if days != [] {
      assert days[0] in days;
      assert forall d :: d in days[1..] ==> d in days;
      RenderedLinesHaveNoBreak(m, days[1..]);
    }
  }

  /** The lines of data.txt as the reader sees them: the written lines and
      an empty one after the final line break. */
  lemma {:induction false} RenderedSplit(m: map<string, string>)
    requires forall d :: d in Days && d in m ==> '\n' !in m[d]
    ensures var lines := RenderLines(m, Days);
      Split(Render(m), '\n') == if lines == [] then ["", ""] else lines + [""]
  {
    var lines := RenderLines(m, Days);
    forall d | d in Days
      ensures '\n' !in d
    {
      DayNamesPlain(d);
    }
    RenderedLinesHaveNoBreak(m, Days);
    if lines == [] {
      assert Render(m) == [] + ['\n'] + [];
      FindFirst([], '\n', []);
    } else {
      JoinSnoc(lines, '\n', "");
      assert Join(lines + [""], '\n') == Render(m);
      SplitJoin(lines + [""], '\n');
    }
  }

  /** The first day's contribution to `Present`, and the rest. */
  lemma PresentCons(acc: map<string, string>, m: map<string, string>, days: seq<string>, f: string -> string)
    requires days != []
    ensures var d := days[0];
      acc + Present(m, days, f)
      == (if d in m && m[d] != "" then acc[d := f(m[d])] else acc) + Present(m, days[1..], f)
  {
    var d := days[0];
    var left := acc + Present(m, days, f);
    var right := (if d in m && m[d] != "" then acc[d := f(m[d])] else acc) + Present(m, days[1..], f);
    var here := if d in m && m[d] != "" then acc[d := f(m[d])] else acc;
    forall k
      ensures k in left <==> k in right
      ensures k in left ==> left[k] == right[k]
    {
      if k in days[1..] && k in m && m[k] != "" {
        assert k in days;
      } else if k == d && k in m && m[k] != "" {
        assert k in days;
      } else {
        assert k in days ==> k == d || k in days[1..];
      }
    }
  }

  /** Reading the written lines of some days, over an earlier map. */
  lemma {:induction false} ReadRenderedLines(acc: map<string, string>, m: map<string, string>, k: nat)
    requires k <= |Days|
    ensures ReadAll(acc, RenderLines(m, Days[k..])) == acc + Present(m, Days[k..], ReadValue)
    decreases |Days| - k
  {
    if k < |Days| {
      var d := Days[k];
      var acc' := if d in m && m[d] != "" then acc[d := ReadValue(m[d])] else acc;
      ReadRenderedStep(acc, m, k);
      ReadRenderedLines(acc', m, k + 1);
    } else {
      assert Present(m, Days[k..], ReadValue) == map[];
    }
  }

  /** The first of the days: its line, if any, is taken, and its value, if
      any, is the first contribution to `Present`. */
  lemma ReadRenderedStep(acc: map<string, string>, m: map<string, string>, k: nat)
    requires k < |Days|
    ensures var d := Days[k];
      var acc' := if d in m && m[d] != "" then acc[d := ReadValue(m[d])] else acc;
      ReadAll(acc, RenderLines(m, Days[k..])) == ReadAll(acc', RenderLines(m, Days[k + 1..]))
      && acc + Present(m, Days[k..], ReadValue) == acc' + Present(m, Days[k + 1..], ReadValue)
  {
    var days := Days[k..];
    var d := Days[k];
    var rest := RenderLines(m, Days[k + 1..]);
    var first := if d in m && m[d] != "" then [CaptionLine(d, m[d])] else [];
    var acc' := if d in m && m[d] != "" then acc[d := ReadValue(m[d])] else acc;
    assert days[0] == d && days[1..] == Days[k + 1..];
    assert RenderLines(m, days) == first + rest;
    assert ReadAll(acc, first) == acc' by {
      if first != [] {
        ColonsSurvive(acc, d, m[d]);
      }
    }
    ReadAllAppend(acc, first, rest);
    PresentCons(acc, m, days, ReadValue);
  }



  /** The scheduler's reader, run on a rewritten data.txt, finds exactly the
      known days that had a non-empty value, each with its value trimmed and
      unescaped. */
  lemma {:induction false} ReadRender(m: map<string, string>)
    requires forall d :: d in Days && d in m ==> '\n' !in m[d]
    ensures Captions(Some(Render(m))) == Present(m, Days, ReadValue)
  {
    ReadRenderSplit(m);
    ReadRenderDays(m);
  }

  lemma ReadRenderSplit(m: map<string, string>)
    requires forall d :: d in Days && d in m ==> '\n' !in m[d]
    ensures Captions(Some(Render(m))) == ReadAll(map[], RenderLines(m, Days))
  {
    RenderedSplit(m);
    ReadTextLines(Render(m), RenderLines(m, Days));
  }

  lemma ReadRenderDays(m: map<string, string>)
    ensures ReadAll(map[], RenderLines(m, Days)) == Present(m, Days, ReadValue)
  {
    ReadRenderedLines(map[], m, 0);
    assert Days[0..] == Days;
    EmptyUnion(Present(m, Days, ReadValue));
  }

  lemma EmptyUnion(p: map<string, string>)
    ensures map[] + p == p
  {
  }

  /** A text that splits into some lines and a final empty one is read as
      those lines. */
  lemma {:induction false} ReadTextLines(text: string, lines: seq<string>)
    requires Split(text, '\n') == if lines == [] then ["", ""] else lines + [""]
    ensures Captions(Some(text)) == ReadAll(map[], lines)
  {
    if lines == [] {
      ReadEmptyLines(map[], ["", ""]);
    } else {
      ReadAllAppend(map[], lines, [""]);
      ReadEmptyLines(ReadAll(map[], lines), [""]);
    }
  }

  /** Empty lines change nothing. */
  lemma {:induction false} ReadEmptyLines(acc: map<string, string>, lines: seq<string>)
    requires forall i :: 0 <= i < |lines| ==> lines[i] == ""
    ensures ReadAll(acc, lines) == acc
    ensures StoreAll(acc, lines) == acc
    decreases |lines|
  {
    if lines != [] {
      assert Split("", ':') == [""];
      ReadEmptyLines(acc, lines[1..]);
    }
  }

  // ---------------------------------------------------------------------
  // The copy of data.txt that `/salvar` keeps: the known days' raw values

  /** One line as `/salvar` takes it: an empty line is skipped; otherwise, if
      the text before the first `:` names a known day, the rest, trimmed but
      still escaped, becomes that day's value. */
  function StoreLine(m: map<string, string>, line: string): map<string, string> {
    if line == "" then m
    else
      var parts := Split(line, ':');
      var day := Trim(parts[0]);
      if day in Days then m[day := Trim(Join(parts[1..], ':'))] else m
  }

  function StoreAll(m: map<string, string>, lines: seq<string>): map<string, string>
    decreases |lines|
  {
    if lines == [] then m else StoreAll(StoreLine(m, lines[0]), lines[1..])
  }

  /** The values `/salvar` reads back from data.txt (none when it is missing). */
  function Stored(file: Option<string>): map<string, string> {
    match file
    case None => map[]
    case Some(text) => StoreAll(map[], Split(text, '\n'))
  }

  /** `/salvar`'s reading of data.txt: the text split into lines, each
      taken in turn by `StoreLines`. */
  method ReadStored(file: Option<string>) returns (m: map<string, string>)
    ensures m == Stored(file)
    ensures forall d :: d in m ==> '\n' !in m[d]
  {
    m := map[];
    if file.Some? {
      m := StoreLines(Split(file.value, '\n'));
    }
    StoredNoBreak(file);
  }

  /** `/salvar`'s reading loop: the lines taken one by one, the empty ones
      filtered out, each known day's value kept. */
  method StoreLines(lines: seq<string>) returns (m: map<string, string>)
    ensures m == StoreAll(map[], lines)
  {
    m := map[];
    var i := 0;
    assert lines[0..] == lines;
    while i < |lines|
      invariant 0 <= i <= |lines|
      invariant StoreAll(m, lines[i..]) == StoreAll(map[], lines)
    {
      ghost var before := m;
      var line := lines[i];
      if line != "" {
        var parts := Split(line, ':');
        var day := Trim(parts[0]);
        if day in Days {
          m := m[day := Trim(Join(parts[1..], ':'))];
        }
      }
      StoreAllStep(before, m, lines, i);
      i := i + 1;
    }
    assert lines[i..] == [];
  }

  lemma {:induction false} StoreAllAppend(m: map<string, string>, a: seq<string>, b: seq<string>)
    ensures StoreAll(m, a + b) == StoreAll(StoreAll(m, a), b)
    decreases |a|
  {
    if a != [] {
      assert (a + b)[0] == a[0];
      assert (a + b)[1..] == a[1..] + b;
      StoreAllAppend(StoreLine(m, a[0]), a[1..], b);
    } else {
      assert a + b == b;
    }
  }

  lemma {:induction false} StoreRenderedLines(acc: map<string, string>, m: map<string, string>, k: nat)
    requires k <= |Days|
    ensures StoreAll(acc, RenderLines(m, Days[k..])) == acc + Present(m, Days[k..], Trim)
    decreases |Days| - k
  {
    if k < |Days| {
      var d := Days[k];
      var acc' := if d in m && m[d] != "" then acc[d := Trim(m[d])] else acc;
      StoreRenderedStep(acc, m, k);
      StoreRenderedLines(acc', m, k + 1);
    } else {
      assert Present(m, Days[k..], Trim) == map[];
    }
  }

  /** The first of the days: its line, if any, is taken, and its value, if
      any, is the first contribution to `Present`. */
  lemma StoreRenderedStep(acc: map<string, string>, m: map<string, string>, k: nat)
    requires k < |Days|
    ensures var d := Days[k];
      var acc' := if d in m && m[d] != "" then acc[d := Trim(m[d])] else acc;
      StoreAll(acc, RenderLines(m, Days[k..])) == StoreAll(acc', RenderLines(m, Days[k + 1..]))
      && acc + Present(m, Days[k..], Trim) == acc' + Present(m, Days[k + 1..], Trim)
  {
    var days := Days[k..];
    var d := Days[k];
    var rest := RenderLines(m, Days[k + 1..]);
    var first := if d in m && m[d] != "" then [CaptionLine(d, m[d])] else [];
    var acc' := if d in m && m[d] != "" then acc[d := Trim(m[d])] else acc;
    assert days[0] == d && days[1..] == Days[k + 1..];
    assert RenderLines(m, days) == first + rest;
    assert StoreAll(acc, first) == acc' by {
      if first != [] {
        StoreCaptionLine(acc, d, m[d]);
      }
    }
    StoreAllAppend(acc, first, rest);
    PresentCons(acc, m, days, Trim);
  }



  /** A written line, as `/salvar` takes it back. */
  lemma {:induction false} StoreCaptionLine(acc: map<string, string>, day: string, value: string)
    requires day in Days
    ensures StoreLine(acc, CaptionLine(day, value)) == acc[day := Trim(value)]
  {
    DayNamesPlain(day);
    TrimOfTrimmed(day);
    LineParts(day, value);
    assert " " + value == [' '] + value;
    TrimSpaceBefore(' ', value);
  }

  /** `/salvar` reads back what it wrote: the known days with a non-empty
      value, each trimmed. */
  lemma {:induction false} StoredRender(m: map<string, string>)
    requires forall d :: d in Days && d in m ==> '\n' !in m[d]
    ensures Stored(Some(Render(m))) == Present(m, Days, Trim)
  {
    StoredRenderSplit(m);
    StoredRenderDays(m);
  }

  lemma StoredRenderSplit(m: map<string, string>)
    requires forall d :: d in Days && d in m ==> '\n' !in m[d]
    ensures Stored(Some(Render(m))) == StoreAll(map[], RenderLines(m, Days))
  {
    RenderedSplit(m);
    StoreTextLines(Render(m), RenderLines(m, Days));
  }

  lemma StoredRenderDays(m: map<string, string>)
    ensures StoreAll(map[], RenderLines(m, Days)) == Present(m, Days, Trim)
  {
    StoreRenderedLines(map[], m, 0);
    assert Days[0..] == Days;
    EmptyUnion(Present(m, Days, Trim));
  }

  /** A text that splits into some lines and a final empty one is read as
      those lines. */
  lemma {:induction false} StoreTextLines(text: string, lines: seq<string>)
    requires Split(text, '\n') == if lines == [] then ["", ""] else lines + [""]
    ensures Stored(Some(text)) == StoreAll(map[], lines)
  {
    if lines == [] {
      ReadEmptyLines(map[], ["", ""]);
    } else {
      StoreAllAppend(map[], lines, [""]);
      ReadEmptyLines(StoreAll(map[], lines), [""]);
    }
  }

  // ---------------------------------------------------------------------
  // What the broadcast sees after each route rewrites data.txt

  /** The caption the broadcast can use for a day: a value that is present
      and not empty. */
  function Caption(m: map<string, string>, day: string): (c: Option<string>)
    ensures c.Some? <==> day in m && m[day] != ""
    ensures c.Some? ==> c.value == m[day]
  {
    if day in m && m[day] != "" then Some(m[day]) else None
  }

  /** The copy and delete routes escape every value before writing. */
  function EscapeAll(m: map<string, string>): (r: map<string, string>)
    ensures r.Keys == m.Keys
    ensures forall d :: d in r ==> '\n' !in r[d] && (r[d] == "" <==> m[d] == "")
  {
    map d | d in m :: EscapeNewlines(m[d])
  }

  /** Rewriting data.txt from a map the reader produced and reading it
      again gives every known day the caption it had. */
  lemma {:induction false} RewriteReadBack(m: map<string, string>)
    requires forall d :: d in m ==> Stable(m[d])
    ensures forall d :: d in Days ==> Caption(Captions(Some(Render(EscapeAll(m)))), d) == Caption(m, d)
  {
    var e := EscapeAll(m);
    ReadRender(e);
    var after := Captions(Some(Render(e)));
    assert after == Present(e, Days, ReadValue);
    forall d | d in Days
      ensures Caption(after, d) == Caption(m, d)
    {
      if d in m && m[d] != "" {
        assert after[d] == ReadValue(EscapeNewlines(m[d]));
      }
    }
  }

  lemma EscapeLineBreaksEmpty(s: string)
    ensures EscapeLineBreaks(s) == [] <==> s == []
  {
  }

  /** The last character of an escaped text: a final line break becomes the
      `n` of `\n`, anything else stays. */
  lemma {:induction false} EscapeLineBreaksLast(s: string)
    requires s != []
    ensures var e := EscapeLineBreaks(s);
      e != [] && e[|e| - 1] == if s[|s| - 1] == '\n' then 'n' else s[|s| - 1]
  {
    var k := if |s| >= 2 && s[0] == '\r' && s[1] == '\n' then 2 else 1;
    var rest := s[k..];
    var head := if k == 2 || s[0] == '\n' then "\\n" else [s[0]];
    var tail := EscapeLineBreaks(rest);
    assert EscapeLineBreaks(s) == head + tail;
    if rest != [] {
      EscapeLineBreaksLast(rest);
      assert rest[|rest| - 1] == s[|s| - 1];
      assert (head + tail)[|head + tail| - 1] == tail[|tail| - 1];
    } else {
      assert tail == [];
      assert head + tail == head;
    }
  }

  /** Escaping keeps a trimmed text trimmed. */
  lemma EscapeLineBreaksTrimmed(s: string)
    requires IsTrimmed(s)
    ensures IsTrimmed(EscapeLineBreaks(s))
  {
    if s != [] {
      EscapeLineBreaksLast(s);
    }
  }

  /** `/salvar` as a value: the known days' values read back, the edited day
      set to the escaped message, the whole rendered again. */
  function SavedFile(file: Option<string>, day: string, message: string): string {
    Render(Stored(file)[day := EscapeLineBreaks(message)])
  }

  lemma StoreLineNoBreak(m: map<string, string>, line: string)
    requires forall d :: d in m ==> '\n' !in m[d]
    requires '\n' !in line
    ensures forall d :: d in StoreLine(m, line) ==> '\n' !in StoreLine(m, line)[d]
  {
    forall x | '\n' !in x
      ensures '\n' !in Trim(x)
    {
      NotInTrim(x, '\n');
    }
    StoreLineKeeps(m, line, s => '\n' !in s);
  }

  /** A property of every trimmed text without line breaks, held by the map
      so far, still holds after `/salvar` took a line. */
  lemma StoreLineKeeps(m: map<string, string>, line: string, P: string -> bool)
    requires '\n' !in line
    requires forall d :: d in m ==> P(m[d])
    requires forall x :: '\n' !in x ==> P(Trim(x))
    ensures forall d :: d in StoreLine(m, line) ==> P(StoreLine(m, line)[d])
  {
    if line != "" {
      var parts := Split(line, ':');
      var value := Join(parts[1..], ':');
      RestNoBreak(line, ':');
      var r := StoreLine(m, line);
      var key := Trim(parts[0]);
      assert P(Trim(value));
      if key in Days {
        assert r == m[key := Trim(value)];
        MapUpdateKeeps(m, r, key, Trim(value), P);
      } else {
        assert r == m;
      }
    }
  }


  lemma {:induction false} StoreAllNoBreak(m: map<string, string>, lines: seq<string>)
    requires forall d :: d in m ==> '\n' !in m[d]
    requires forall l :: l in lines ==> '\n' !in l
    ensures forall d :: d in StoreAll(m, lines) ==> '\n' !in StoreAll(m, lines)[d]
    decreases |lines|
  {
    if lines != [] {
      assert lines[0] in lines;
      StoreLineNoBreak(m, lines[0]);
      assert forall l :: l in lines[1..] ==> l in lines;
      StoreAllNoBreak(StoreLine(m, lines[0]), lines[1..]);
    }
  }

  /** The values `/salvar` reads back never hold a line break. */
  lemma StoredNoBreak(file: Option<string>)
    ensures forall d :: d in Stored(file) ==> '\n' !in Stored(file)[d]
  {
    if file.Some? {
      StoreAllNoBreak(map[], Split(file.value, '\n'));
    }
  }

  /** What the reader makes of the file `/salvar` writes. */
  lemma SavedFileRead(file: Option<string>, day: string, message: string)
    ensures Captions(Some(SavedFile(file, day, message)))
      == Present(Stored(file)[day := EscapeLineBreaks(message)], Days, ReadValue)
  {
    StoredNoBreak(file);
    ReadRender(Stored(file)[day := EscapeLineBreaks(message)]);
  }

  /** After `/salvar` for a known day, the broadcast reads back exactly the
      message typed, when it is trimmed, not empty, and has no `\r` before a
      line break or `\` before an `n`. */
  lemma {:induction false} SavedCaptionReadBack(file: Option<string>, day: string, message: string)
    requires day in Days
    requires Plain(message) && IsTrimmed(message) && message != ""
    ensures Caption(Captions(Some(SavedFile(file, day, message))), day) == Some(message)
  {
    var stored := Stored(file)[day := EscapeLineBreaks(message)];
    EscapedReadsBack(message);
    SavedFileRead(file, day, message);
    PresentCaption(Captions(Some(SavedFile(file, day, message))), stored, day, message);
  }

  /** A message typed on the page is read back from its escaped form. */
  lemma EscapedReadsBack(message: string)
    requires Plain(message) && IsTrimmed(message) && message != ""
    ensures EscapeLineBreaks(message) != "" && ReadValue(EscapeLineBreaks(message)) == message
  {
    var e := EscapeLineBreaks(message);
    EscapeLineBreaksEmpty(message);
    EscapeLineBreaksTrimmed(message);
    TrimOfTrimmed(e);
    UnescapeEscape(message);
  }

  lemma PresentCaption(after: map<string, string>, m: map<string, string>, day: string, message: string)
    requires after == Present(m, Days, ReadValue)
    requires day in Days && day in m && m[day] != "" && ReadValue(m[day]) == message && message != ""
    ensures Caption(after, day) == Some(message)
  {
  }

  /** `/salvar` keeps every other known day's caption of a data.txt the
      server wrote itself (from any map `m0` without line breaks in its
      values). */
  lemma {:induction false} SaveKeepsOtherDays(m0: map<string, string>, day: string, message: string, other: string)
    requires forall d :: d in Days && d in m0 ==> '\n' !in m0[d]
    requires other in Days && other != day
    ensures var before := Some(Render(m0));
      Caption(Captions(Some(SavedFile(before, day, message))), other) == Caption(Captions(before), other)
  {
    var before := Some(Render(m0));
    StoredRender(m0);
    SavedFileRead(before, day, message);
    ReadRender(m0);
    KeptCaption(m0, Stored(before)[day := EscapeLineBreaks(message)], other);
  }

  /** A day whose value was trimmed once more reads the same. */
  lemma KeptCaption(m0: map<string, string>, m: map<string, string>, d: string)
    requires d in Days
    requires d in m <==> d in m0 && m0[d] != ""
    requires d in m ==> m[d] == Trim(m0[d])
    ensures Caption(Present(m, Days, ReadValue), d) == Caption(Present(m0, Days, ReadValue), d)
  {
    if d in m0 && m0[d] != "" {
      TrimIdempotent(m0[d]);
    }
  }

  lemma {:induction false} ReadAllStable(m: map<string, string>, lines: seq<string>)
    requires forall d :: d in m ==> Stable(m[d])
    requires forall l :: l in lines ==> '\n' !in l
    ensures forall d :: d in ReadAll(m, lines) ==> Stable(ReadAll(m, lines)[d])
    decreases |lines|
  {
    if lines != [] {
      assert lines[0] in lines;
      ReadLineStable(m, lines[0]);
      assert forall l :: l in lines[1..] ==> l in lines;
      ReadAllStable(ReadLine(m, lines[0]), lines[1..]);
    }
  }

  /** Every caption read from data.txt survives being escaped, written and
      read again. */
  lemma CaptionsStable(file: Option<string>)
    ensures forall d :: d in Captions(file) ==> Stable(Captions(file)[d])
  {
    if file.Some? {
      ReadAllStable(map[], Split(file.value, '\n'));
    }
  }

  // ---------------------------------------------------------------------
  // `/copiar-anuncio` and `/apagar-anuncio` as values

  /** The captions after the copy loop: each known destination, in turn,
      gets the source's text; unknown names are skipped. */
  function CopiedTexts(m: map<string, string>, text: string, dests: seq<string>): map<string, string> {
    if dests == [] then m
    else
      var before := CopiedTexts(m, text, dests[..|dests| - 1]);
      var d := dests[|dests| - 1];
      if d in Days then before[d := text] else before
  }

  /** The images after the copy loop: each known destination gets a copy
      of the source image under its own base name and the source's
      extension. */
  function CopiedImages(assets: map<string, Bytes>, image: Bytes, ext: string, dests: seq<string>): map<string, Bytes> {
    if dests == [] then assets
    else
      var before := CopiedImages(assets, image, ext, dests[..|dests| - 1]);
      var d := dests[|dests| - 1];
      if d in Days then before[ImageBase(d).value + ext := image] else before
  }

  /** The `forEach` over the destinations of `/copiar-anuncio`: a name
      that is not a known day is skipped; a known one gets the image under
      its own base name and the source's extension, and the text. */
  method CopyToDays(assets: map<string, Bytes>, messages: map<string, string>, image: Bytes, ext: string,
                    text: string, dests: seq<string>)
    returns (assets': map<string, Bytes>, messages': map<string, string>)
    ensures assets' == CopiedImages(assets, image, ext, dests)
    ensures messages' == CopiedTexts(messages, text, dests)
  {
    assets', messages' := assets, messages;
    var i := 0;
    while i < |dests|
      invariant 0 <= i <= |dests|
      invariant assets' == CopiedImages(assets, image, ext, dests[..i])
      invariant messages' == CopiedTexts(messages, text, dests[..i])
    {
      var dest := dests[i];
      var target := ImageBase(dest);
      assert dests[..i + 1][..i] == dests[..i];
      if target.Some? {
        assets' := assets'[target.value + ext := image];
        messages' := messages'[dest := text];
      }
      i := i + 1;
    }
    assert dests[..i] == dests;
  }

  /** Every known destination ends up with the text; every other name keeps
      what it had. */
  lemma {:induction false} CopiedTextsSpec(m: map<string, string>, text: string, dests: seq<string>)
    ensures forall d :: d in dests && d in Days ==> d in CopiedTexts(m, text, dests) && CopiedTexts(m, text, dests)[d] == text
    ensures forall d :: !(d in dests && d in Days) ==>
      (d in CopiedTexts(m, text, dests) <==> d in m) && (d in m ==> CopiedTexts(m, text, dests)[d] == m[d])
  {
    if dests != [] {
      var init := dests[..|dests| - 1];
      CopiedTextsSpec(m, text, init);
      assert forall d :: d in dests <==> d in init || d == dests[|dests| - 1];
    }
  }

  /** Every known destination's image under the source's extension is the
      source image; every other file is left as it was. */
  lemma {:induction false} CopiedImagesSpec(assets: map<string, Bytes>, image: Bytes, ext: string, dests: seq<string>)
    ensures forall d :: d in dests && d in Days ==>
      ImageBase(d).value + ext in CopiedImages(assets, image, ext, dests)
      && CopiedImages(assets, image, ext, dests)[ImageBase(d).value + ext] == image
    ensures forall k :: (forall d :: d in dests && d in Days ==> k != ImageBase(d).value + ext) ==>
      (k in CopiedImages(assets, image, ext, dests) <==> k in assets)
      && (k in assets ==> CopiedImages(assets, image, ext, dests)[k] == assets[k])
  {
    if dests != [] {
      var init := dests[..|dests| - 1];
      CopiedImagesSpec(assets, image, ext, init);
      assert forall d :: d in dests <==> d in init || d == dests[|dests| - 1];
    }
  }

  /** After `/copiar-anuncio`, the broadcast finds the source's caption for
      every known destination, and every other known day keeps its own.
      `m` is what the reader produced, so its values are `Stable`. */
  lemma CopyReadBack(m: map<string, string>, origin: string, dests: seq<string>)
    requires forall d :: d in m ==> Stable(m[d])
    requires Caption(m, origin).Some?
    ensures var after := Captions(Some(Render(EscapeAll(CopiedTexts(m, m[origin], dests)))));
      forall d :: d in Days ==>
        Caption(after, d) == if d in dests then Caption(m, origin) else Caption(m, d)
  {
    var copied := CopiedTexts(m, m[origin], dests);
    var after := Captions(Some(Render(EscapeAll(copied))));
    CopiedTextsSpec(m, m[origin], dests);
    forall d | d in copied
      ensures Stable(copied[d])
    {
      if !(d in dests && d in Days) {
        assert copied[d] == m[d];
      }
    }
    RewriteReadBack(copied);
    CaptionsCopied(after, m, origin, dests);
  }

  lemma CaptionsCopied(after: map<string, string>, m: map<string, string>, origin: string, dests: seq<string>)
    requires Caption(m, origin).Some?
    requires forall d :: d in Days ==> Caption(after, d) == Caption(CopiedTexts(m, m[origin], dests), d)
    ensures forall d :: d in Days ==>
      Caption(after, d) == if d in dests then Caption(m, origin) else Caption(m, d)
  {
    CopiedTextsSpec(m, m[origin], dests);
  }

  lemma CaptionsWithout(after: map<string, string>, m: map<string, string>, day: string)
    requires forall d :: d in Days ==> Caption(after, d) == Caption(m - {day}, d)
    ensures forall d :: d in Days ==> Caption(after, d) == if d == day then None else Caption(m, d)
  {
  }

  /** After `/apagar-anuncio` for a known day, that day has no caption and
      every other known day keeps its own. */
  lemma DeleteReadBack(m: map<string, string>, day: string)
    requires forall d :: d in m ==> Stable(m[d])
    ensures var after := Captions(Some(Render(EscapeAll(m - {day}))));
      forall d :: d in Days ==> Caption(after, d) == if d == day then None else Caption(m, d)
  {
    RewriteReadBack(m - {day});
    CaptionsWithout(Captions(Some(Render(EscapeAll(m - {day})))), m, day);
  }

  /** The image the broadcast finds for a known day after a copy: with a
      `.jpg` source it is the copy; with a `.png` source it is the copy only
      when the destination had no `.jpg`, because `.jpg` is looked up
      first and the copy does not remove it. */
  lemma {:induction false} CopiedImageSeen(assets: map<string, Bytes>, image: Bytes, ext: string, dests: seq<string>, d: string)
    requires ext in Exts && d in dests && d in Days
    ensures var after := CopiedImages(assets, image, ext, dests);
      var base := ImageBase(d).value;
      (ext == Exts[0] || base + Exts[0] !in assets ==> ImageOf(after, base) == Some(base + ext) && after[base + ext] == image)
      && (ext == Exts[1] && base + Exts[0] in assets ==>
            ImageOf(after, base) == Some(base + Exts[0]) && after[base + Exts[0]] == assets[base + Exts[0]])
  {
    var base := ImageBase(d).value;
    CopiedImagesSpec(assets, image, ext, dests);
    if ext == Exts[1] {
      forall d' | d' in dests && d' in Days
        ensures base + Exts[0] != ImageBase(d').value + ext
      {
        if base + Exts[0] == ImageBase(d').value + ext {
          ImageKeysDistinct(d, Exts[0], d', ext);
        }
      }
    }
  }

  // ---------------------------------------------------------------------
  // `/apagar-todos-anuncios` as values

  /** The files `base` plus each of the first `j` extensions tried. */
  function ExtFiles(base: string, j: nat): (files: set<string>)
    requires j <= |Exts|
    ensures forall e :: e in Exts[..j] ==> base + e in files
  {
    if j == 0 then {}
    else
      var files := ExtFiles(base, j - 1) + {base + Exts[j - 1]};
      assert forall e :: e in Exts[..j] ==> e in Exts[..j - 1] || e == Exts[j - 1];
      files
  }

  /** The loop over `['.jpg', '.png']` that unlinks each of a base name's
      image files that exists. */
  method RemoveImages(assets: map<string, Bytes>, base: string) returns (rest: map<string, Bytes>)
    ensures rest == assets - ExtFiles(base, |Exts|)
    ensures forall f :: f in rest <==> f in assets && f != base + Exts[0] && f != base + Exts[1]
  {
    rest := assets;
    var j := 0;
    while j < |Exts|
      invariant 0 <= j <= |Exts|
      invariant rest == assets - ExtFiles(base, j)
    {
      var file := base + Exts[j];
      if file in rest {
        rest := rest - {file};
      }
      j := j + 1;
    }
    assert ExtFiles(base, |Exts|) == {base + Exts[0], base + Exts[1]};
  }

  /** The image files of the first `n` days, under both extensions. */
  function AdFiles(n: nat): (files: set<string>)
    requires n <= |Days|
    ensures forall i, e :: 0 <= i < n && e in Exts ==> ImageBase(Days[i]).value + e in files
  {
    if n == 0 then {}
    else
      var files := AdFiles(n - 1) + ExtFiles(ImageBase(Days[n - 1]).value, |Exts|);
      assert Exts[..|Exts|] == Exts;
      files
  }

  /** The loop over every day's base name that unlinks its image files. */
  method RemoveAllImages(assets: map<string, Bytes>) returns (rest: map<string, Bytes>)
    ensures rest == assets - AdFiles(|Days|)
  {
    rest := assets;
    var i := 0;
    while i < |Days|
      invariant 0 <= i <= |Days|
      invariant rest == assets - AdFiles(i)
    {
      ghost var before := rest;
      rest := RemoveImages(rest, ImageBase(Days[i]).value);
      RemoveDayStep(assets, before, rest, i);
      i := i + 1;
    }
  }

  lemma RemoveDayStep(assets: map<string, Bytes>, before: map<string, Bytes>, after: map<string, Bytes>, i: nat)
    requires i < |Days|
    requires before == assets - AdFiles(i)
    requires after == before - ExtFiles(ImageBase(Days[i]).value, |Exts|)
    ensures after == assets - AdFiles(i + 1)
  {
  }

  /** Once every day's image files are removed, no day has an image. */
  lemma NoImagesLeft(assets: map<string, Bytes>, day: string)
    requires day in Days
    ensures ImageOf(assets - AdFiles(|Days|), ImageBase(day).value).None?
  {
    var i :| 0 <= i < |Days| && Days[i] == day;
    assert Exts[0] in Exts && Exts[1] in Exts;
  }

  /** An emptied data.txt holds no caption at all. */
  lemma EmptyFileNoCaptions()
    ensures Captions(Some("")) == map[]
  {
    assert Split("", '\n') == [""];
    assert Split("", ':') == [""];
    assert ReadAll(map[], [""]) == ReadAll(ReadLine(map[], ""), []);
  }
}
