/**
 * Models of the java.lang.String operations that the command engine relies on:
 * toLowerCase, equals after lowering, trim, indexOf, replace(target, "") and
 * split("|"). Strings are sequences of characters.
 */
module JavaString {

  /**
   * toLowerCase on one character, restricted to ASCII letters: an upper-case
   * letter becomes its lower-case partner, 32 code points on; nothing else
   * changes, and no upper-case letter is left.
   */
  function LowerChar(c: char): (r: char)
    ensures !('A' <= r <= 'Z')
    ensures 'A' <= c <= 'Z' ==> 'a' <= r <= 'z' && r as int - c as int == 32
    ensures !('A' <= c <= 'Z') ==> r == c
  {
    if 'A' <= c <= 'Z' then (c as int + 32) as char else c
  }

  /** toLowerCase, restricted to ASCII letters: it lowers each character in place. */
  function Lower(s: string): (r: string)
    ensures |r| == |s|
    ensures forall i :: 0 <= i < |r| ==> !('A' <= r[i] <= 'Z')
  {
    seq(|s|, i requires 0 <= i < |s| => LowerChar(s[i]))
  }

  /** `a.toLowerCase().equals(b.toLowerCase())` */
  function EqualsIgnoreCase(a: string, b: string): (r: bool)
    ensures r ==> |a| == |b|
    ensures a == b ==> r
  {
    Lower(a) == Lower(b)
  }

  /** Two strings are equal ignoring case iff they agree, lowered, position by position. */
  lemma EqualsIgnoreCaseByPosition(a: string, b: string)
    ensures EqualsIgnoreCase(a, b) <==>
      |a| == |b| && forall i :: 0 <= i < |a| ==> LowerChar(a[i]) == LowerChar(b[i])
  {
    if |a| == |b| && forall i :: 0 <= i < |a| ==> LowerChar(a[i]) == LowerChar(b[i]) {
      forall i | 0 <= i < |a| ensures Lower(a)[i] == Lower(b)[i] {
        assert Lower(a)[i] == LowerChar(a[i]) && Lower(b)[i] == LowerChar(b[i]);
      }
    }
    if EqualsIgnoreCase(a, b) {
      forall i | 0 <= i < |a| ensures LowerChar(a[i]) == LowerChar(b[i]) {
        assert Lower(a)[i] == LowerChar(a[i]) && Lower(b)[i] == LowerChar(b[i]);
      }
    }
  }

  /** trim() removes the leading characters whose code is at most U+0020, ... */
  function TrimStart(s: string): (r: string)
    ensures |r| <= |s| && r == s[|s| - |r|..]
    ensures forall k :: 0 <= k < |s| - |r| ==> s[k] <= ' '
    ensures r == [] || r[0] > ' '
    decreases |s|
  {
    if |s| > 0 && s[0] <= ' ' then TrimStart(s[1..]) else s
  }

  /** ... and the trailing ones. */
  function TrimEnd(s: string): (r: string)
    ensures |r| <= |s| && r == s[..|r|]
    ensures forall k :: |r| <= k < |s| ==> s[k] <= ' '
    ensures r == [] || r[|r| - 1] > ' '
    decreases |s|
  {
    if |s| > 0 && s[|s| - 1] <= ' ' then TrimEnd(s[..|s| - 1]) else s
  }

  /** String.trim: neither end of the result is a character at most U+0020. */
  function Trim(s: string): (r: string)
    ensures r == [] || (r[0] > ' ' && r[|r| - 1] > ' ')
  {
    TrimEnd(TrimStart(s))
  }

  /** The first position holding `c` is what indexOf reports. */
  lemma {:induction false} IndexOfAt(s: string, c: char, k: nat)
    requires k < |s| && s[k] == c && c !in s[..k]
    ensures IndexOf(s, c) == k
  {
    if k > 0 {
      assert s[0] == s[..k][0];
      assert s[1..][..k - 1] == s[..k][1..];
      IndexOfAt(s[1..], c, k - 1);
    }
  }

  /** Text of visible characters only is left alone by trim(). */
  lemma TrimVisible(s: string)
    requires forall k :: 0 <= k < |s| ==> s[k] > ' '
    ensures Trim(s) == s
  {
    assert TrimStart(s) == s;
    assert TrimEnd(s) == s;
  }

  /** String.indexOf(c): the first position of `c`, or -1 when there is none. */
  function IndexOf(s: string, c: char): (r: int)
    ensures r == -1 <==> c !in s
    ensures r != -1 ==> 0 <= r < |s| && s[r] == c && c !in s[..r]
  {
    if |s| == 0 then -1
    else if s[0] == c then 0
    else
      var k := IndexOf(s[1..], c);
      if k == -1 then -1 else k + 1
  }

  predicate OccursAt(s: string, t: string, i: int)
  {
    0 <= i && i + |t| <= |s| && s[i..i + |t|] == t
  }

  ghost predicate Occurs(s: string, t: string)
  {
    exists i :: OccursAt(s, t, i)
  }

  /**
   * `s.replace(t, "")`: every occurrence of `t`, found left to right without
   * overlap, is deleted. An empty target deletes nothing.
   */
  function RemoveAll(s: string, t: string): (r: string)
    ensures |r| <= |s|
    decreases |s|
  {
    if |t| == 0 || |s| < |t| then s
    else if s[..|t|] == t then RemoveAll(s[|t|..], t)
    else [s[0]] + RemoveAll(s[1..], t)
  }

  /** With nothing to delete, `replace` gives back its input. */
  lemma {:induction false} RemoveAllAbsent(s: string, t: string)
    requires t == [] || !Occurs(s, t)
    ensures RemoveAll(s, t) == s
    decreases |s|
  {
    if t != [] && |s| >= |t| {
      assert !OccursAt(s, t, 0);
      forall i | OccursAt(s[1..], t, i) ensures OccursAt(s, t, i + 1) {
        OccursInTail(s, t, i);
      }
      RemoveAllAbsent(s[1..], t);
    }
  }

  /** An occurrence in `s[1..]` is an occurrence in `s`, one place further on. */
  lemma OccursInTail(s: string, t: string, j: int)
    requires |s| > 0 && 0 <= j
    ensures OccursAt(s[1..], t, j) <==> OccursAt(s, t, j + 1)
  {
    if j + |t| <= |s| - 1 {
      assert s[1..][j..j + |t|] == s[j + 1..j + 1 + |t|];
    }
  }

  /** `replace` deletes an occurrence at the front and goes on after it. */
  lemma RemoveAllAtStart(s: string, t: string)
    requires t != [] && OccursAt(s, t, 0)
    ensures RemoveAll(s, t) == RemoveAll(s[|t|..], t)
  {
  }

  /** `replace` keeps a character that does not start an occurrence. */
  lemma RemoveAllStep(s: string, t: string)
    requires t != [] && |s| > 0 && !OccursAt(s, t, 0)
    ensures RemoveAll(s, t) == [s[0]] + RemoveAll(s[1..], t)
  {
  }

  /** A text whose first character is absent from `s` does not occur in it. */
  lemma AbsentFirstChar(s: string, t: string)
    requires t != [] && t[0] !in s
    ensures !Occurs(s, t)
  {
    forall i | 0 <= i && i + |t| <= |s| ensures !OccursAt(s, t, i) {
      assert s[i..i + |t|][0] == s[i];
    }
  }

  /**
   * The scan of `replace`: everything before the leftmost occurrence is kept,
   * the occurrence is deleted and the scan resumes right after it.
   */
  lemma {:induction false} RemoveAllAtFirst(s: string, t: string, i: nat)
    requires t != [] && OccursAt(s, t, i)
    requires forall j :: 0 <= j < i ==> !OccursAt(s, t, j)
    ensures RemoveAll(s, t) == s[..i] + RemoveAll(s[i + |t|..], t)
  {
    if i == 0 {
      RemoveAllAtStart(s, t);
      assert s[..i] == [];
    } else {
      var tail := s[1..];
      var rest := RemoveAll(s[i + |t|..], t);
      RemoveAllStep(s, t);
      forall j | 0 <= j < i - 1 ensures !OccursAt(tail, t, j) {
        OccursInTail(s, t, j);
      }
      OccursInTail(s, t, i - 1);
      RemoveAllAtFirst(tail, t, i - 1);
      SuffixOfTail(s, i + |t|);
      calc {
        RemoveAll(s, t);
        [s[0]] + RemoveAll(tail, t);
        [s[0]] + (tail[..i - 1] + RemoveAll(tail[i - 1 + |t|..], t));
        [s[0]] + (tail[..i - 1] + rest);
        { AppendAssoc([s[0]], tail[..i - 1], rest); }
        ([s[0]] + tail[..i - 1]) + rest;
        { PrefixOfTail(s, i); }
        s[..i] + rest;
      }
    }
  }

  lemma SuffixOfTail(s: string, i: nat)
    requires 0 < i <= |s|
    ensures s[1..][i - 1..] == s[i..]
  {
  }

  /** A text whose first character appears nowhere else is deleted once, where it stands. */
  lemma RemoveAllOnce(a: string, t: string, b: string)
    requires t != [] && t[0] !in a && t[0] !in b
    ensures RemoveAll(a + t + b, t) == a + b
  {
    var s := a + t + b;
    forall j | 0 <= j < |a| ensures !OccursAt(s, t, j) {
      assert s[j] == a[j];
    }
    assert s[|a|..|a| + |t|] == t;
    RemoveAllAtFirst(s, t, |a|);
    assert s[..|a|] == a && s[|a| + |t|..] == b;
    AbsentFirstChar(b, t);
    RemoveAllAbsent(b, t);
  }

  lemma PrefixOfTail(s: string, i: nat)
    requires 0 < i <= |s|
    ensures s[..i] == [s[0]] + s[1..][..i - 1]
  {
    forall k | 0 <= k < i ensures s[..i][k] == ([s[0]] + s[1..][..i - 1])[k] {
    }
  }

  /** Past its head, a sequence built by consing is the tail, shifted by one. */
  lemma ConsIndex<T>(x: T, xs: seq<T>)
    ensures ([x] + xs)[0] == x
    ensures forall j :: 0 < j <= |xs| ==> ([x] + xs)[j] == xs[j - 1]
  {
  }

  lemma AppendAssoc(a: string, b: string, c: string)
    ensures a + (b + c) == (a + b) + c
  {
  }

  /** Joins a list of strings (String.join with an empty separator). */
  function Concat(ts: seq<string>): (r: string)
    ensures ts != [] ==> ts[0] <= r
  {
    if ts == [] then [] else ts[0] + Concat(ts[1..])
  }

  /**
   * `s.split("|")` as Java 8 and later compute it. The argument is a regular
   * expression, and `|` is an alternation of two empty patterns, so it matches
   * the empty string at every position: a non-empty string falls apart into
   * its single characters (a `|` included), and "" gives [""].
   */
  function SplitOnBar(s: string): (r: seq<string>)
    ensures Concat(r) == s
    ensures |s| == 0 ==> r == [""]
    ensures |s| > 0 ==> forall j :: 0 <= j < |r| ==> |r[j]| == 1
  {
    if |s| <= 1 then [s]
    else
      var rest := SplitOnBar(s[1..]);
      assert ([s[..1]] + rest)[1..] == rest;
      [s[..1]] + rest
  }

  /** Joining one-character strings gives back exactly those characters. */
  lemma {:induction false} ConcatOfSingletons(ts: seq<string>)
    requires forall j :: 0 <= j < |ts| ==> |ts[j]| == 1
    ensures |Concat(ts)| == |ts|
    ensures forall j :: 0 <= j < |ts| ==> ts[j] == [Concat(ts)[j]]
  {
    if ts != [] {
      ConcatOfSingletons(ts[1..]);
      assert Concat(ts) == ts[0] + Concat(ts[1..]);
      forall j | 0 <= j < |ts| ensures ts[j] == [Concat(ts)[j]] {
        if j > 0 {
          assert ts[j] == ts[1..][j - 1];
        }
      }
    }
  }
}
