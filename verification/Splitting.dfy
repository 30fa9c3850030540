/** Splitting text at a character and joining it again. */
module Splitting {

  /** `str::split`: always at least one part. */
  function Split(s: string, d: char): (parts: seq<string>)
    ensures parts != []
  {
    if s == "" then [""]
    else
      var more := Split(s[1..], d);
      if s[0] == d then [""] + more else [[s[0]] + more[0]] + more[1..]
  }

  function Join(parts: seq<string>, d: char): string {
    if parts == [] then "" else if |parts| == 1 then parts[0] else parts[0] + [d] + Join(parts[1..], d)
  }

  function Count(s: string, c: char): nat {
    if s == "" then 0 else (if s[0] == c then 1 else 0) + Count(s[1..], c)
  }

  lemma {:induction false} CountAppend(a: string, b: string, c: char)
    ensures Count(a + b, c) == Count(a, c) + Count(b, c)
  {
    if a == "" {
      assert a + b == b;
    } else {
      assert (a + b)[1..] == a[1..] + b;
      CountAppend(a[1..], b, c);
    }
  }

  lemma CountOne(a: char, c: char)
    ensures Count([a], c) == if a == c then 1 else 0
  {
    assert [a][1..] == "";
  }

  lemma CountTwo(a: char, b: char, c: char)
    ensures Count([a, b], c) == (if a == c then 1 else 0) + (if b == c then 1 else 0)
  {
    CountOne(a, c);
    CountOne(b, c);
    CountAppend([a], [b], c);
    assert [a] + [b] == [a, b];
  }

  lemma {:induction false} SplitCount(s: string, d: char)
    ensures |Split(s, d)| == 1 + Count(s, d)
  {
    if s != "" {
      SplitCount(s[1..], d);
    }
  }

  lemma {:induction false} SplitPrefix(a: string, rest: string, d: char)
    requires Count(a, d) == 0
    ensures Split(a + ([d] + rest), d) == [a] + Split(rest, d)
  {
    var s := a + ([d] + rest);
    if a == "" {
      assert s == [d] + rest;
      assert s[1..] == rest;
    } else {
      assert s[1..] == a[1..] + ([d] + rest);
      SplitPrefix(a[1..], rest, d);
      var more := Split(s[1..], d);
      assert more[0] == a[1..] && more[1..] == Split(rest, d);
      assert [a[0]] + a[1..] == a;
    }
  }

  lemma {:induction false} SplitNone(a: string, d: char)
    requires Count(a, d) == 0
    ensures Split(a, d) == [a]
  {
    if a != "" {
      SplitNone(a[1..], d);
      assert [a[0]] + a[1..] == a;
    }
  }

  ghost predicate Free(parts: seq<string>, d: char) {
    forall i :: 0 <= i < |parts| ==> Count(parts[i], d) == 0
  }

  lemma {:induction false} SplitJoin(parts: seq<string>, d: char)
    requires parts != [] && Free(parts, d)
    ensures Split(Join(parts, d), d) == parts
  {
    if |parts| == 1 {
      SplitNone(parts[0], d);
      assert parts == [parts[0]];
    } else {
      var rest := Join(parts[1..], d);
      SplitJoin(parts[1..], d);
      SplitPrefix(parts[0], rest, d);
      assert Join(parts, d) == parts[0] + ([d] + rest);
      assert parts == [parts[0]] + parts[1..];
    }
  }

  lemma {:induction false} SplitFree(s: string, d: char)
    ensures Free(Split(s, d), d)
  {
    if s != "" {
      SplitFree(s[1..], d);
      var more := Split(s[1..], d);
      if s[0] != d {
        assert ([s[0]] + more[0])[1..] == more[0];
      }
    }
  }

  /** Splitting at another character leaves this one absent. */
  lemma {:induction false} SplitKeeps(s: string, d: char, c: char)
    requires Count(s, c) == 0
    ensures Free(Split(s, d), c)
  {
    if s != "" {
      SplitKeeps(s[1..], d, c);
      var more := Split(s[1..], d);
      if s[0] != d {
        assert ([s[0]] + more[0])[1..] == more[0];
      }
    }
  }

  /** One more character that is not the delimiter goes to the last part. */
  lemma {:induction false} SplitSnoc(s: string, c: char, d: char)
    requires c != d
    ensures var parts, more := Split(s, d), Split(s + [c], d);
            |more| == |parts| && more[|more| - 1] == parts[|parts| - 1] + [c]
  {
    if s == "" {
      assert s + [c] == [c] && [c][1..] == "";
    } else {
      SplitSnoc(s[1..], c, d);
      assert (s + [c])[1..] == s[1..] + [c];
      var parts := Split(s[1..], d);
      if s[0] != d && |parts| == 1 {
        assert [s[0]] + (parts[0] + [c]) == ([s[0]] + parts[0]) + [c];
      }
    }
  }

  lemma CountLast(s: string)
    requires s != ""
    ensures Count(s, s[|s| - 1]) > 0
  {
    var init, c := s[..|s| - 1], s[|s| - 1];
    CountAppend(init, [c], c);
    CountOne(c, c);
    assert init + [c] == s;
  }

  lemma {:induction false} CountNone(s: string, c: char)
    requires forall i :: 0 <= i < |s| ==> s[i] != c
    ensures Count(s, c) == 0
  {
    if s != "" {
      CountNone(s[1..], c);
    }
  }

  lemma {:induction false} CountIn(s: string, c: char)
    ensures Count(s, c) == 0 <==> c !in s
  {
    if s != "" {
      CountIn(s[1..], c);
      assert s == [s[0]] + s[1..];
    }
  }

  lemma {:induction false} CountAt(s: string, i: nat, c: char)
    requires i < |s| && Count(s, c) == 0
    ensures s[i] != c
  {
    if i > 0 {
      CountAt(s[1..], i - 1, c);
    }
  }
}
