/** The string operations the catalog relies on: Python's `", ".join(...)`;
    `str.split(", ")`, which joining always undoes and which undoes a join of
    comma-free parts; substring search; and SQLite's `LIKE`. */
module Text {

  /** The separator both formatters place between their parts. */
  const Separator: string := ", "

  /** `", ".join(parts)`. */
  function Join(parts: seq<string>): string
  {
    if |parts| == 0 then ""
    else if |parts| == 1 then parts[0]
    else parts[0] + Separator + Join(parts[1..])
  }

  /** `s.split(", ")`: the pieces of `s` between occurrences of the
      separator, scanning left to right. There is always at least one piece. */
  function Split(s: string): (r: seq<string>)
    ensures |r| >= 1
    decreases |s|
  {
    if |s| == 0 then [""]
    else if |s| >= 2 && s[0] == ',' && s[1] == ' ' then [""] + Split(s[2..])
    else
      var rest := Split(s[1..]);
      [[s[0]] + rest[0]] + rest[1..]
  }

  /** Joining a head onto a non-empty list puts the separator after the head. */
  lemma JoinCons(h: string, t: seq<string>)
    requires |t| >= 1
    ensures Join([h] + t) == h + Separator + Join(t)
  {
    assert ([h] + t)[1..] == t;
  }

  /** A string that starts with the separator: its first piece is empty. */
  lemma JoinSplitSeparator(s: string)
    requires |s| >= 2 && s[0] == ',' && s[1] == ' '
    requires Join(Split(s[2..])) == s[2..]
    ensures Join(Split(s)) == s
  {
    var rest := Split(s[2..]);
    assert Split(s) == [""] + rest;
    JoinCons("", rest);
    assert s == Separator + s[2..];
  }

  /** Joining one, two or three parts, written out. */
  lemma JoinUpToThree(parts: seq<string>)
    ensures |parts| == 1 ==> Join(parts) == parts[0]
    ensures |parts| == 2 ==> Join(parts) == parts[0] + Separator + parts[1]
    ensures |parts| == 3 ==> Join(parts) == parts[0] + Separator + parts[1] + Separator + parts[2]
  {
    if |parts| == 3 {
      assert parts[1..][1..] == [parts[2]];
    }
  }

  /** Prefixing the first piece prefixes the joined string. */
  lemma JoinPrefix(x: string, h: string, t: seq<string>)
    ensures Join([x + h] + t) == x + Join([h] + t)
  {
    if |t| == 0 {
      assert [x + h] + t == [x + h];
      assert [h] + t == [h];
    } else {
      JoinCons(h, t);
      JoinCons(x + h, t);
    }
  }

  /** A string that starts with any other character: it joins the first piece. */
  lemma JoinSplitChar(s: string)
    requires |s| >= 1 && !(|s| >= 2 && s[0] == ',' && s[1] == ' ')
    requires Join(Split(s[1..])) == s[1..]
    ensures Join(Split(s)) == s
  {
    var rest := Split(s[1..]);
    assert Split(s) == [[s[0]] + rest[0]] + rest[1..];
    assert rest == [rest[0]] + rest[1..];
    JoinPrefix([s[0]], rest[0], rest[1..]);
    assert [s[0]] + s[1..] == s;
  }

  /** Splitting and joining back gives the original string, whatever it holds. */
  lemma {:induction false} JoinSplit(s: string)
    ensures Join(Split(s)) == s
    decreases |s|
  {
    if |s| == 0 {
    } else if |s| >= 2 && s[0] == ',' && s[1] == ' ' {
      JoinSplit(s[2..]);
      JoinSplitSeparator(s);
    } else {
      JoinSplit(s[1..]);
      JoinSplitChar(s);
    }
  }

  /** A string without a comma is a single piece. */
  lemma {:induction false} SplitNoComma(a: string)
    requires ',' !in a
    ensures Split(a) == [a]
    decreases |a|
  {
    if |a| > 0 {
      SplitNoComma(a[1..]);
      assert [a[0]] + a[1..] == a;
    }
  }

  /** A comma-free head followed by the separator is split off as the first piece. */
  lemma {:induction false} SplitAfterHead(a: string, b: string)
    requires ',' !in a
    ensures Split(a + Separator + b) == [a] + Split(b)
    decreases |a|
  {
    var s := a + Separator + b;
    if |a| == 0 {
      assert s == Separator + b;
      assert s[2..] == b;
    } else {
      assert s[0] == a[0];
      assert s[1..] == a[1..] + Separator + b;
      SplitAfterHead(a[1..], b);
      assert [a[0]] + a[1..] == a;
    }
  }

  /** Joining comma-free parts and splitting the result gives the parts back. */
  lemma {:induction false} SplitJoin(parts: seq<string>)
    requires |parts| >= 1
    requires forall k :: 0 <= k < |parts| ==> ',' !in parts[k]
    ensures Split(Join(parts)) == parts
    decreases |parts|
  {
    if |parts| == 1 {
      SplitNoComma(parts[0]);
    } else {
      SplitJoin(parts[1..]);
      SplitAfterHead(parts[0], Join(parts[1..]));
      assert parts == [parts[0]] + parts[1..];
    }
  }

  /** `sub` occurs in `s` starting at position `i`. */
  predicate OccursAt(s: string, sub: string, i: int)
  {
    0 <= i && i + |sub| <= |s| && s[i..i + |sub|] == sub
  }

  /** Substring search: `sub` occurs somewhere in `s`, scanning from the left. */
  function Contains(s: string, sub: string): (r: bool)
    ensures r <==> exists i :: OccursAt(s, sub, i)
    decreases |s|
  {
    if |sub| <= |s| && s[..|sub|] == sub then
      assert OccursAt(s, sub, 0);
      true
    else if |s| == 0 then
      assert forall i :: !OccursAt(s, sub, i);
      false
    else
      var r := Contains(s[1..], sub);
      if r then
        var i :| OccursAt(s[1..], sub, i);
        assert s[i + 1..i + 1 + |sub|] == s[1..][i..i + |sub|];
        assert OccursAt(s, sub, i + 1);
        true
      else
        assert forall i :: OccursAt(s, sub, i) ==> i >= 1 && OccursAt(s[1..], sub, i - 1) by {
          forall i | OccursAt(s, sub, i) ensures i >= 1 && OccursAt(s[1..], sub, i - 1) {
            assert s[1..][i - 1..i - 1 + |sub|] == s[i..i + |sub|];
          }
        }
        false
  }

  /** SQLite's case folding in `LIKE`: only the ASCII letters 'A'..'Z' are
      lowered; every other character compares as itself. */
  function AsciiLower(c: char): (r: char)
    ensures 'A' <= c <= 'Z' ==> 'a' <= r <= 'z' && r as int - c as int == 32
    ensures !('A' <= c <= 'Z') ==> r == c
  {
    if 'A' <= c <= 'Z' then (c as int + 32) as char else c
  }

  function Lower(s: string): (r: string)
    ensures |r| == |s|
    ensures forall k :: 0 <= k < |s| ==> r[k] == AsciiLower(s[k])
  {
    seq(|s|, k requires 0 <= k < |s| => AsciiLower(s[k]))
  }

  /** Folding twice is folding once. */
  lemma LowerIdempotent(s: string)
    ensures Lower(Lower(s)) == Lower(s)
  {
  }

  /** Django's `__contains` lookup as SQLite runs it, `LIKE '%sub%'` with the
      wildcards in `sub` escaped: `sub` occurs in `s` when ASCII case is ignored. */
  function LikeContains(s: string, sub: string): (r: bool)
    ensures r <==> exists i :: OccursAt(Lower(s), Lower(sub), i)
  {
    Contains(Lower(s), Lower(sub))
  }

  /** An exact occurrence is also a `LIKE` match. */
  lemma LikeContainsExact(s: string, sub: string, i: int)
    requires OccursAt(s, sub, i)
    ensures LikeContains(s, sub)
  {
    var n := |sub|;
    assert Lower(s)[i..i + n] == Lower(sub) by {
      forall k | 0 <= k < n ensures Lower(s)[i..i + n][k] == Lower(sub)[k] {
        assert s[i + k] == s[i..i + n][k] == sub[k];
      }
    }
    assert OccursAt(Lower(s), Lower(sub), i);
  }

  /** The match does not change when either side is folded first. */
  lemma LikeContainsIgnoresCase(s: string, sub: string)
    ensures LikeContains(Lower(s), sub) == LikeContains(s, sub)
    ensures LikeContains(s, Lower(sub)) == LikeContains(s, sub)
  {
    LowerIdempotent(s);
    LowerIdempotent(sub);
  }
}
