/** The broadcast hours: what `POST /horarios` stores in horarios.txt, what
    `lerHorarios` hands the scheduler (shifted by three hours), and the
    inverse shift the page applies before showing them. */
module Hours {
  import opened Wrappers

  /** The quotient of `a / b` rounded toward zero, as JavaScript's
      `Math.trunc(a / b)` gives it for integers. */
  function TruncQuot(a: int, b: int): int
    requires b > 0
  {
    if a >= 0 then a / b else -((-a) / b)
  }

  /** JavaScript's `%` on integers: what is left of `a` after the truncated
      quotient's multiple of `b`, so the remainder takes the sign of the
      dividend. */
  function JsRem(a: int, b: int): (r: int)
    requires b > 0
    ensures a == TruncQuot(a, b) * b + r
    ensures a >= 0 ==> 0 <= r < b
    ensures a < 0 ==> -b < r <= 0
  {
    if a >= 0 then a % b else -((-a) % b)
  }

  /** Sorted in ascending order without repeats. */
  ghost predicate StrictlyAscending(s: seq<int>) {
    forall i, j :: 0 <= i < j < |s| ==> s[i] < s[j]
  }

  function Insert(x: int, s: seq<int>): (r: seq<int>)
    requires StrictlyAscending(s)
    ensures StrictlyAscending(r)
    ensures forall y :: y in r <==> y == x || y in s
  {
    if s == [] then [x]
    else if x == s[0] then s
    else if x < s[0] then [x] + s
    else
      var t := Insert(x, s[1..]);
      var r := [s[0]] + t;
      assert forall y :: y in t ==> s[0] < y by {
        assert forall i :: 0 < i < |s| ==> s[0] < s[i];
      }
      assert StrictlyAscending(r) by {
        forall i, j | 0 <= i < j < |r|
          ensures r[i] < r[j]
        {
          assert r[j] == t[j - 1];
          if i > 0 {
            assert r[i] == t[i - 1];
          } else {
            assert t[j - 1] in t;
          }
        }
      }
      assert forall y :: y in s <==> y == s[0] || y in s[1..];
      r
  }

  /** `[...new Set(xs)].sort((a, b) => a - b)`: the distinct values of
      `xs` in ascending order. */
  function SortedUnique(xs: seq<int>): (r: seq<int>)
    ensures StrictlyAscending(r)
    ensures forall y :: y in r <==> y in xs
  {
    if xs == [] then []
    else
      var r := Insert(xs[|xs| - 1], SortedUnique(xs[..|xs| - 1]));
      assert forall y :: y in xs <==> y in xs[..|xs| - 1] || y == xs[|xs| - 1];
      r
  }

  /** Ascending order and membership determine a sequence, so the stored
      list is the only one `POST /horarios` could have written. */
  lemma {:induction false} AscendingUnique(a: seq<int>, b: seq<int>)
    requires StrictlyAscending(a) && StrictlyAscending(b)
    requires forall y :: y in a <==> y in b
    ensures a == b
  {
    assert a != [] ==> a[0] in a && a[0] in b;
    assert b != [] ==> b[0] in b && b[0] in a;
    if a != [] && b != [] {
      assert a[0] == b[0];
      forall y
        ensures y in a[1..] <==> y in b[1..]
      {
        if y in a[1..] {
          assert y in b && y != b[0];
        }
        if y in b[1..] {
          assert y in a && y != a[0];
        }
      }
      AscendingUnique(a[1..], b[1..]);
    }
  }

  /** The body of `POST /horarios`: either not an array, or the array with
      each element already put through `parseInt` (`None` for `NaN`). */
  datatype HoursBody = NotAnArray | Items(values: seq<Option<int>>)

  datatype HoursReply = Invalid | Saved(hours: seq<int>)

  /** The numbers among the parsed elements, in order (`filter(h => !isNaN(h))`). */
  function Numbers(values: seq<Option<int>>): (r: seq<int>)
    ensures forall y :: y in r <==> Some(y) in values
  {
    if values == [] then []
    else
      var r := Numbers(values[..|values| - 1]) + match values[|values| - 1] {
        case Some(h) => [h]
        case None => []
      };
      assert forall v :: v in values <==> v in values[..|values| - 1] || v == values[|values| - 1];
      r
  }

  /** `POST /horarios`: a non-array or an empty array is refused; otherwise
      the numbers, deduplicated and sorted, are what gets stored. */
  function NormaliseHours(body: HoursBody): (reply: HoursReply)
    ensures reply.Invalid? <==> body.NotAnArray? || body.values == []
    ensures reply.Saved? ==> StrictlyAscending(reply.hours)
    ensures reply.Saved? ==> forall h :: h in reply.hours <==> Some(h) in body.values
  {
    match body
    case NotAnArray => Invalid
    case Items(values) => if values == [] then Invalid else Saved(SortedUnique(Numbers(values)))
  }

  /** `lerHorarios`: the stored hours shifted by `(h + 3) % 24`; a missing
      file yields no hours. */
  function ServerHours(file: Option<seq<int>>): (r: seq<int>)
    ensures file.None? ==> r == []
    ensures file.Some? ==> |r| == |file.value|
    ensures file.Some? ==> forall i :: 0 <= i < |r| ==> r[i] == JsRem(file.value[i] + 3, 24)
  {
    match file
    case None => []
    case Some(stored) => seq(|stored|, i requires 0 <= i < |stored| => JsRem(stored[i] + 3, 24))
  }

  /** The page's `(h - 3 + 24) % 24`, applied to each hour it is sent. */
  function DisplayHour(h: int): int {
    JsRem(h - 3 + 24, 24)
  }

  /** On the hours of a day, the page's shift undoes the server's and the
      other way round. */
  lemma ShiftsInverse(h: int)
    requires 0 <= h < 24
    ensures DisplayHour(JsRem(h + 3, 24)) == h
    ensures JsRem(DisplayHour(h) + 3, 24) == h
  {
  }

  /** The page shows exactly the hours that were stored, when they are hours
      of a day. */
  lemma {:induction false} DisplayServerHours(stored: seq<int>)
    requires forall i :: 0 <= i < |stored| ==> 0 <= stored[i] < 24
    ensures var shown := ServerHours(Some(stored));
      seq(|shown|, i requires 0 <= i < |shown| => DisplayHour(shown[i])) == stored
  {
    var shown := ServerHours(Some(stored));
    forall i | 0 <= i < |stored|
      ensures DisplayHour(shown[i]) == stored[i]
    {
      ShiftsInverse(stored[i]);
    }
  }

  /** A clock hour is a broadcast hour exactly when the hour three hours
      earlier was stored, for stored hours of a day. */
  lemma ScheduledIff(stored: seq<int>, hour: int)
    requires forall i :: 0 <= i < |stored| ==> 0 <= stored[i] < 24
    requires 0 <= hour < 24
    ensures hour in ServerHours(Some(stored)) <==> DisplayHour(hour) in stored
  {
    var shown := ServerHours(Some(stored));
    if hour in shown {
      var i :| 0 <= i < |shown| && shown[i] == hour;
      ShiftsInverse(stored[i]);
    }
    if DisplayHour(hour) in stored {
      var i :| 0 <= i < |stored| && stored[i] == DisplayHour(hour);
      ShiftsInverse(hour);
      assert shown[i] == hour;
    }
  }

  /** `[9, 14, 9, 3]` is stored as `[3, 9, 14]`. */
  lemma NormaliseExample(values: seq<Option<int>>)
    requires values == [Some(9), Some(14), Some(9), Some(3)]
    ensures NormaliseHours(Items(values)) == Saved([3, 9, 14])
  {
    var r := NormaliseHours(Items(values));
    var expected := [3, 9, 14];
    assert StrictlyAscending(expected);
    forall h
      ensures h in r.hours <==> h in expected
    {
      assert h in r.hours <==> Some(h) in values;
      assert Some(h) in values <==> h == 9 || h == 14 || h == 3;
    }
    AscendingUnique(r.hours, expected);
  }
}
