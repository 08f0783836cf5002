/** The handful of Python string operations the converter relies on, written out
    over `string` (a `seq<char>`): `sub in s`, `s.split(c)`, `sep.join(parts)`,
    `s.strip('\n')` and the single-character forms of `s.replace(a, b)`. */
module Text {

  import opened Failures

  /** Python's `pat in s`: `pat` occurs somewhere in `s` as a contiguous substring. */
  predicate Contains(s: string, pat: string)
    decreases |s|
  {
    pat <= s || (|s| > 0 && Contains(s[1..], pat))
  }

  /** A substring's characters all occur in the enclosing string. */
  lemma {:induction false} ContainsChar(s: string, pat: string, c: char)
    requires Contains(s, pat) && c in pat
    ensures c in s
    decreases |s|
  {
    if pat <= s {
      var k :| 0 <= k < |pat| && pat[k] == c;
      assert s[k] == c;
    } else {
      ContainsChar(s[1..], pat, c);
      assert s == [s[0]] + s[1..];
    }
  }

  /** Position of the first occurrence of `c` in `s`. */
  function IndexOf(s: string, c: char): (i: nat)
    requires c in s
    ensures i < |s| && s[i] == c && c !in s[..i]
  {
    if s[0] == c then 0
    else
      var j := IndexOf(s[1..], c);
      assert s[..j + 1] == [s[0]] + s[1..][..j];
      j + 1
  }

  lemma IndexOfAfterPrefix(a: string, c: char, b: string)
    requires c !in a
    ensures c in a + [c] + b && IndexOf(a + [c] + b, c) == |a|
  {
    var s := a + [c] + b;
    assert s[|a|] == c;
  }

  /** Python's `s.split(sep)` for a one-character separator: the pieces between
      separators, so there is always at least one piece. */
  function Split(s: string, sep: char): (r: seq<string>)
    ensures |r| >= 1
    ensures |r| >= 2 <==> sep in s
    decreases |s|
  {
    if sep in s then
      var i := IndexOf(s, sep);
      [s[..i]] + Split(s[i + 1..], sep)
    else [s]
  }

  /** Python's `sep.join(parts)`. */
  function Join(parts: seq<string>, sep: string): string
  {
    if |parts| == 0 then ""
    else if |parts| == 1 then parts[0]
    else parts[0] + sep + Join(parts[1..], sep)
  }

  /** Joining the pieces back with the separator gives the original string. */
  lemma {:induction false} JoinSplit(s: string, sep: char)
    ensures Join(Split(s, sep), [sep]) == s
    decreases |s|
  {
    if sep in s {
      var i := IndexOf(s, sep);
      JoinSplit(s[i + 1..], sep);
      assert s == s[..i] + [sep] + s[i + 1..];
    }
  }

  /** No piece of a split contains the separator. */
  lemma {:induction false} SplitPiecesAvoidSep(s: string, sep: char)
    ensures forall p <- Split(s, sep) :: sep !in p
    decreases |s|
  {
    if sep in s {
      var i := IndexOf(s, sep);
      SplitPiecesAvoidSep(s[i + 1..], sep);
    }
  }

  /** A character absent from `s` is absent from every piece of its split. */
  lemma {:induction false} SplitPiecesAvoid(s: string, sep: char, c: char)
    requires c !in s
    ensures forall p <- Split(s, sep) :: c !in p
    decreases |s|
  {
    if sep in s {
      var i := IndexOf(s, sep);
      SplitPiecesAvoid(s[i + 1..], sep, c);
      assert forall k :: 0 <= k < i ==> s[..i][k] == s[k];
    }
  }

  /** Splitting a join of separator-free pieces gives the pieces back. */
  lemma {:induction false} SplitJoin(parts: seq<string>, sep: char)
    requires |parts| >= 1
    requires forall p <- parts :: sep !in p
    ensures Split(Join(parts, [sep]), sep) == parts
    decreases |parts|
  {
    if |parts| > 1 {
      var rest := Join(parts[1..], [sep]);
      IndexOfAfterPrefix(parts[0], sep, rest);
      var s := parts[0] + [sep] + rest;
      assert s[..|parts[0]|] == parts[0];
      assert s[|parts[0]| + 1..] == rest;
      SplitJoin(parts[1..], sep);
    }
  }

  /** A character absent from every part and from the separator is absent from the join. */
  lemma {:induction false} JoinAvoids(parts: seq<string>, sep: string, c: char)
    requires c !in sep
    requires forall p <- parts :: c !in p
    ensures c !in Join(parts, sep)
    decreases |parts|
  {
    if |parts| > 1 {
      JoinAvoids(parts[1..], sep, c);
    }
  }

  /** The second piece of `s.split(sep)`, i.e. Python's `s.split(sep)[1]`, or
      None where Python raises IndexError. */
  function SecondPiece(s: string, sep: char): (r: Option<string>)
    ensures r.Some? <==> sep in s
    ensures r.Some? ==> sep !in r.value
  {
    var pieces := Split(s, sep);
    if |pieces| >= 2 then
      SplitPiecesAvoidSep(s, sep);
      assert pieces[1] in pieces;
      Some(pieces[1])
    else None
  }

  /** `SecondPiece` is exactly the text between the first and the second
      occurrence of the separator, or all the text after the first one when
      there is no second. */
  lemma SecondPieceBetween(s: string, sep: char)
    requires sep in s
    ensures var after := s[IndexOf(s, sep) + 1..];
            SecondPiece(s, sep) == Some(if sep in after then after[..IndexOf(after, sep)] else after)
  {
    var after := s[IndexOf(s, sep) + 1..];
    assert Split(s, sep)[1] == Split(after, sep)[0];
  }

  function TrimStart(s: string, c: char): (r: string)
    ensures |r| <= |s| && r == s[|s| - |r|..]
    ensures |r| > 0 ==> r[0] != c
    ensures forall k :: 0 <= k < |s| - |r| ==> s[k] == c
  {
    if |s| > 0 && s[0] == c then TrimStart(s[1..], c) else s
  }

  function TrimEnd(s: string, c: char): (r: string)
    ensures |r| <= |s| && r == s[..|r|]
    ensures |r| > 0 ==> r[|r| - 1] != c
    ensures forall k :: |r| <= k < |s| ==> s[k] == c
  {
    if |s| > 0 && s[|s| - 1] == c then TrimEnd(s[..|s| - 1], c) else s
  }

  /** Python's `s.strip('\n')`: every leading and trailing newline removed. */
  function StripNewlines(s: string): (r: string)
  {
    TrimEnd(TrimStart(s, '\n'), '\n')
  }

  /** What `strip('\n')` returns is `s` with only newlines cut from both ends,
      and it neither starts nor ends with a newline. */
  lemma StripNewlinesShape(s: string)
    ensures var r := StripNewlines(s);
            (|r| > 0 ==> r[0] != '\n' && r[|r| - 1] != '\n') &&
            exists lo, hi :: 0 <= lo <= hi <= |s| && r == s[lo..hi] &&
              (forall k :: 0 <= k < lo ==> s[k] == '\n') &&
              (forall k :: hi <= k < |s| ==> s[k] == '\n')
  {
    var t := TrimStart(s, '\n');
    var r := TrimEnd(t, '\n');
    var lo := |s| - |t|;
    var hi := lo + |r|;
    assert t == s[lo..] && r == t[..|r|];
    assert r == s[lo..hi];
    forall k | hi <= k < |s|
      ensures s[k] == '\n'
    {
      assert s[k] == t[k - lo];
    }
  }

  /** A line as file iteration yields it: no newline except one at the very end. */
  predicate IsPhysicalLine(s: string)
  {
    forall k :: 0 <= k < |s| - 1 ==> s[k] != '\n'
  }

  /** Stripping a physical line leaves no newline at all. */
  lemma StripPhysicalLine(s: string)
    requires IsPhysicalLine(s)
    ensures '\n' !in StripNewlines(s)
  {
    var t := TrimStart(s, '\n');
    var r := TrimEnd(t, '\n');
    assert t == s[|s| - |t|..];
    assert r == t[..|r|];
  }

  /** A character other than the newline survives stripping only if it was in `s`. */
  lemma StripAvoids(s: string, c: char)
    requires c !in s
    ensures c !in StripNewlines(s)
  {
    var t := TrimStart(s, '\n');
    var r := TrimEnd(t, '\n');
    assert forall k :: 0 <= k < |r| ==> r[k] == s[|s| - |t| + k];
  }

  /** Python's `s.replace(a, b)` for one-character `a` and `b`. */
  function ReplaceChar(s: string, a: char, b: char): (r: string)
    ensures |r| == |s|
    ensures forall k :: 0 <= k < |s| ==> r[k] == (if s[k] == a then b else s[k])
  {
    if |s| == 0 then "" else [if s[0] == a then b else s[0]] + ReplaceChar(s[1..], a, b)
  }

  /** Python's `s.replace(c, '')`: every occurrence of `c` removed. */
  function RemoveChar(s: string, c: char): (r: string)
    ensures c !in r
    ensures forall x :: x != c ==> multiset(r)[x] == multiset(s)[x]
  {
    if |s| == 0 then ""
    else
      assert s == [s[0]] + s[1..];
      (if s[0] == c then "" else [s[0]]) + RemoveChar(s[1..], c)
  }

  /** A single character is dropped exactly when it is `c`. */
  lemma RemoveCharSingle(x: char, c: char)
    ensures RemoveChar([x], c) == (if x == c then "" else [x])
  {
    assert [x][1..] == "";
  }

  /** Removal works piece by piece and keeps the order of what remains: the
      result for `a + b` is the result for `a` followed by that for `b`. */
  lemma {:induction false} RemoveCharInOrder(a: string, b: string, c: char)
    ensures RemoveChar(a + b, c) == RemoveChar(a, c) + RemoveChar(b, c)
    decreases |a|
  {
    if a == "" {
      assert a + b == b;
    } else {
      var head := if a[0] == c then "" else [a[0]];
      assert (a + b)[0] == a[0] && (a + b)[1..] == a[1..] + b;
      assert RemoveChar(a + b, c) == head + RemoveChar(a[1..] + b, c);
      assert RemoveChar(a, c) == head + RemoveChar(a[1..], c);
      RemoveCharInOrder(a[1..], b, c);
    }
  }

  /** Joining one more part appends the separator and that part. */
  lemma {:induction false} JoinSnoc(parts: seq<string>, sep: string, p: string)
    requires |parts| >= 1
    ensures Join(parts + [p], sep) == Join(parts, sep) + sep + p
    decreases |parts|
  {
    if |parts| > 1 {
      assert (parts + [p])[1..] == parts[1..] + [p];
      JoinSnoc(parts[1..], sep, p);
    }
  }

  /** Four separator-free pieces joined by the separator split back into them. */
  lemma FourPieces(a: string, b: string, c: string, d: string, sep: char)
    requires sep !in a && sep !in b && sep !in c && sep !in d
    ensures var r := Split(a + [sep] + (b + [sep] + (c + [sep] + d)), sep);
            |r| == 4 && r[0] == a && r[1] == b && r[2] == c && r[3] == d
  {
    var parts := [a, b, c, d];
    assert forall p <- parts :: sep !in p;
    SplitJoin(parts, sep);
    JoinFour(a, b, c, d, [sep]);
  }

  /** Four pieces joined by a separator, written out. */
  lemma JoinFour(a: string, b: string, c: string, d: string, sep: string)
    ensures Join([a, b, c, d], sep) == a + sep + (b + sep + (c + sep + d))
  {
    var parts := [a, b, c, d];
    assert parts[1..] == [b, c, d] && parts[1..][1..] == [c, d] && parts[1..][1..][1..] == [d];
    assert Join([c, d], sep) == c + sep + d;
    assert Join([b, c, d], sep) == b + sep + (c + sep + d);
  }
}
