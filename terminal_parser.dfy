/**
 * The terminal message parser: one terminal line becomes a command context
 * with a command name, `-name=value` parameters, a free-text value and the
 * source type "Terminal".
 *
 * The parameter pattern is the fixed regular expression
 *   -([a-zA-Z0-9]+)=(([a-zA-Z0-9]+)|("([a-zA-Z0-9/]+)"))
 * Neither character class contains `=` or `"`, so a match never needs to
 * backtrack: the name is the longest run of letters and digits after `-` and
 * must be followed by `=`; the value is the longest run of letters and digits,
 * or `"`, the longest run of letters, digits and `/`, and `"`. The scanner
 * below is that deterministic reading, and IsToken is the pattern itself.
 */
module TerminalParser {
  import opened Wrappers
  import opened JavaString
  import opened Commands

  const TerminalType: string := "Terminal"

  predicate IsAlnum(c: char)
  {
    'a' <= c <= 'z' || 'A' <= c <= 'Z' || '0' <= c <= '9'
  }

  predicate IsPathChar(c: char)
  {
    IsAlnum(c) || c == '/'
  }

  predicate AllAlnum(s: string)
  {
    forall i :: 0 <= i < |s| ==> IsAlnum(s[i])
  }

  predicate AllPath(s: string)
  {
    forall i :: 0 <= i < |s| ==> IsPathChar(s[i])
  }

  /** `[a-zA-Z0-9]+`: the parameter name, group 1. */
  predicate IsName(t: string)
  {
    |t| > 0 && AllAlnum(t)
  }

  /** `"([a-zA-Z0-9/]+)"`: the quoted alternative. */
  predicate IsQuoted(t: string)
  {
    |t| >= 3 && t[0] == '"' && t[|t| - 1] == '"' && AllPath(t[1..|t| - 1])
  }

  /** `([a-zA-Z0-9]+)|("([a-zA-Z0-9/]+)")`: the value, group 2. */
  predicate IsGroup2(t: string)
  {
    IsName(t) || IsQuoted(t)
  }

  /** The whole parameter pattern; accepted text is at least `-a=b` long. */
  ghost function IsToken(t: string): (r: bool)
    ensures r ==> |t| >= 4 && t[0] == '-' && '=' in t
  {
    exists k :: SplitsAt(t, k)
  }

  /**
   * `t` is `-`, a name, `=` at `k`, and a value. The name holds no `=`, so the
   * `=` at `k` is the first one in `t`.
   */
  function SplitsAt(t: string, k: int): (r: bool)
    ensures r ==> 1 < k < |t| && forall j :: 0 <= j < k ==> t[j] != '='
  {
    1 < k < |t| && t[0] == '-' && t[k] == '=' && IsName(t[1..k]) && IsGroup2(t[k + 1..])
  }

  /** One match: where it starts and ends in the message, group 1 and group 2. */
  datatype Match = Match(start: nat, end: nat, name: string, group2: string)
  {
    /** The matched text, `matcher.group()`. */
    function Text(): (t: string)
      ensures |t| == |name| + |group2| + 2
      ensures t[0] == '-' && t[|name| + 1] == '='
    {
      "-" + name + "=" + group2
    }
  }

  /** End of the longest run of letters and digits starting at `i`. */
  function AlnumRunEnd(s: string, i: nat): (r: nat)
    requires i <= |s|
    ensures i <= r <= |s|
    ensures forall k :: i <= k < r ==> IsAlnum(s[k])
    ensures r == |s| || !IsAlnum(s[r])
    decreases |s| - i
  {
    if i < |s| && IsAlnum(s[i]) then AlnumRunEnd(s, i + 1) else i
  }

  /** End of the longest run of letters, digits and `/` starting at `i`. */
  function PathRunEnd(s: string, i: nat): (r: nat)
    requires i <= |s|
    ensures i <= r <= |s|
    ensures forall k :: i <= k < r ==> IsPathChar(s[k])
    ensures r == |s| || !IsPathChar(s[r])
    decreases |s| - i
  {
    if i < |s| && IsPathChar(s[i]) then PathRunEnd(s, i + 1) else i
  }

  /** `-name=value` laid out in `s` from `i` to `e`, with the `=` at `k`. */
  lemma SplitAtEquals(s: string, i: nat, k: nat, e: nat)
    requires i < k < e <= |s|
    ensures s[i..e] == [s[i]] + s[i + 1..k] + [s[k]] + s[k + 1..e]
  {
    assert s[i..e] == s[i..k] + s[k..e];
    assert s[i..k] == [s[i]] + s[i + 1..k];
    assert s[k..e] == [s[k]] + s[k + 1..e];
  }

  /** Quotes at `v` and `q` around a run of path characters form the quoted alternative. */
  lemma QuotedRun(s: string, v: nat, q: nat)
    requires v + 1 < q < |s| && s[v] == '"' && s[q] == '"'
    requires forall n :: v + 1 <= n < q ==> IsPathChar(s[n])
    ensures IsQuoted(s[v..q + 1])
  {
    var g := s[v..q + 1];
    var inner := g[1..|g| - 1];
    assert |g| == q + 1 - v && g[0] == s[v] && g[|g| - 1] == s[q];
    forall n | 0 <= n < |inner| ensures IsPathChar(inner[n]) {
      assert inner[n] == g[n + 1] == s[v + 1 + n];
    }
  }

  /** A run of letters and digits from `a` to `b` is a name. */
  lemma AlnumRun(s: string, a: nat, b: nat)
    requires a < b <= |s|
    requires forall n :: a <= n < b ==> IsAlnum(s[n])
    ensures IsName(s[a..b])
  {
    forall n | 0 <= n < b - a ensures IsAlnum(s[a..b][n]) {
      assert s[a..b][n] == s[a + n];
    }
  }

  /** The match spanning `i` to `e` in `s`, with its `=` at `k`. */
  function MatchSpan(s: string, i: nat, k: nat, e: nat): (m: Match)
    requires i + 1 < k < e <= |s| && s[i] == '-' && s[k] == '='
    requires forall n :: i + 1 <= n < k ==> IsAlnum(s[n])
    requires IsGroup2(s[k + 1..e])
    ensures m == Match(i, e, s[i + 1..k], s[k + 1..e])
    ensures s[i..e] == m.Text() && IsName(m.name) && IsGroup2(m.group2)
  {
    SplitAtEquals(s, i, k, e);
    AlnumRun(s, i + 1, k);
    Match(i, e, s[i + 1..k], s[k + 1..e])
  }

  /** The match of the pattern that begins exactly at `i`, if there is one. */
  function MatchAt(s: string, i: nat): (r: Option<Match>)
    requires i <= |s|
    ensures r.Some? ==> r.value.start == i && i < r.value.end <= |s|
  {
    if i < |s| && s[i] == '-' then
      var nameEnd := AlnumRunEnd(s, i + 1);
      if nameEnd > i + 1 && nameEnd < |s| && s[nameEnd] == '=' then
        var v := nameEnd + 1;
        var valueEnd := AlnumRunEnd(s, v);
        if valueEnd > v then
          AlnumRun(s, v, valueEnd);
          Some(MatchSpan(s, i, nameEnd, valueEnd))
        else if v < |s| && s[v] == '"' then
          var quoteEnd := PathRunEnd(s, v + 1);
          if quoteEnd > v + 1 && quoteEnd < |s| && s[quoteEnd] == '"' then
            QuotedRun(s, v, quoteEnd);
            Some(MatchSpan(s, i, nameEnd, quoteEnd + 1))
          else None
        else None
      else None
    else None
  }

  /** A reported match is the text it spans, with a name and a value. */
  lemma MatchAtText(s: string, i: nat)
    requires i <= |s| && MatchAt(s, i).Some?
    ensures s[i..MatchAt(s, i).value.end] == MatchAt(s, i).value.Text()
    ensures IsName(MatchAt(s, i).value.name) && IsGroup2(MatchAt(s, i).value.group2)
  {
  }

  /** The match MatchAt reports is text the pattern accepts. */
  lemma MatchIsToken(s: string, i: nat)
    requires i <= |s| && MatchAt(s, i).Some?
    ensures IsToken(s[i..MatchAt(s, i).value.end])
  {
    var m := MatchAt(s, i).value;
    var t := s[i..m.end];
    var k := 1 + |m.name|;
    MatchAtText(s, i);
    assert t == m.Text();
    assert t[1..k] == m.name;
    assert t[k + 1..] == m.group2;
    assert t[k] == '=';
    assert SplitsAt(t, k);
  }

  /** A run of letters and digits stopped by another character ends there. */
  lemma AlnumRunEndAt(s: string, a: nat, b: nat)
    requires a <= b <= |s| && (b == |s| || !IsAlnum(s[b]))
    requires forall n :: a <= n < b ==> IsAlnum(s[n])
    ensures AlnumRunEnd(s, a) == b
  {
  }

  /** A run of letters, digits and `/` stopped by another character ends there. */
  lemma PathRunEndAt(s: string, a: nat, b: nat)
    requires a <= b < |s| && !IsPathChar(s[b])
    requires forall n :: a <= n < b ==> IsPathChar(s[n])
    ensures PathRunEnd(s, a) == b
  {
  }

  /** A bare value at `v` lies within the run of letters and digits starting there. */
  lemma NameValueIsScanned(s: string, v: nat, j: nat)
    requires v < j <= |s| && IsName(s[v..j])
    ensures AlnumRunEnd(s, v) > v && j <= AlnumRunEnd(s, v)
  {
    var g := s[v..j];
    assert s[v] == g[0];
  }

  /** A quoted value at `v` is exactly what the quoted branch of the scanner reads. */
  lemma QuotedValueIsScanned(s: string, v: nat, j: nat)
    requires v < j <= |s| && IsQuoted(s[v..j])
    ensures AlnumRunEnd(s, v) == v && s[v] == '"' && v + 1 < j - 1
    ensures PathRunEnd(s, v + 1) == j - 1 && s[j - 1] == '"'
  {
    var g := s[v..j];
    assert |g| >= 3 && g[0] == s[v] && g[|g| - 1] == s[j - 1];
    var inner := g[1..|g| - 1];
    forall n | v + 1 <= n < j - 1 ensures IsPathChar(s[n]) {
      assert inner[n - v - 1] == s[n];
      assert IsPathChar(inner[n - v - 1]);
    }
    assert !IsPathChar(s[j - 1]);
    PathRunEndAt(s, v + 1, j - 1);
  }

  /** In accepted text, the name is the longest run of letters and digits after `-`. */
  lemma TokenName(s: string, i: nat, j: nat) returns (nameEnd: nat)
    requires i < j <= |s| && IsToken(s[i..j])
    ensures i + 1 < nameEnd < j - 1 && s[i] == '-' && s[nameEnd] == '='
    ensures AlnumRunEnd(s, i + 1) == nameEnd
    ensures IsGroup2(s[nameEnd + 1..j])
  {
    var k :| SplitsAt(s[i..j], k);
    TokenParts(s, i, j, k);
    nameEnd := i + k;
  }

  /** The pieces of accepted text at `i`, read back in `s` itself. */
  lemma TokenParts(s: string, i: nat, j: nat, k: nat)
    requires i < j <= |s| && SplitsAt(s[i..j], k)
    ensures s[i] == '-' && s[i + k] == '=' && i + k + 1 < j
    ensures AlnumRunEnd(s, i + 1) == i + k
    ensures IsGroup2(s[i + k + 1..j])
  {
    var t := s[i..j];
    forall n | i + 1 <= n < i + k ensures IsAlnum(s[n]) {
      assert s[n] == t[1..k][n - i - 1];
    }
    AlnumRunEndAt(s, i + 1, i + k);
    assert t[k + 1..] == s[i + k + 1..j];
  }

  /**
   * Any text at `i` that the pattern accepts is covered by the match MatchAt
   * reports there: so MatchAt misses no match, and reports the longest.
   */
  lemma TokenIsMatched(s: string, i: nat, j: nat)
    requires i < j <= |s| && IsToken(s[i..j])
    ensures MatchAt(s, i).Some? && j <= MatchAt(s, i).value.end
  {
    var nameEnd := TokenName(s, i, j);
    var v := nameEnd + 1;
    MatchAtAfterName(s, i, nameEnd);
    if IsName(s[v..j]) {
      NameValueIsScanned(s, v, j);
    } else {
      QuotedValueIsScanned(s, v, j);
    }
  }

  /** Where the match at `i` ends, once the scanner has read `-name=`. */
  lemma MatchAtAfterName(s: string, i: nat, nameEnd: nat)
    requires i < |s| && s[i] == '-' && nameEnd == AlnumRunEnd(s, i + 1)
    requires i + 1 < nameEnd < |s| && s[nameEnd] == '='
    ensures AlnumRunEnd(s, nameEnd + 1) > nameEnd + 1 ==>
      MatchAt(s, i).Some? && MatchAt(s, i).value.end == AlnumRunEnd(s, nameEnd + 1)
    ensures
      var v := nameEnd + 1;
      AlnumRunEnd(s, v) == v && v < |s| && s[v] == '"'
      && v + 1 < PathRunEnd(s, v + 1) < |s| && s[PathRunEnd(s, v + 1)] == '"' ==>
        MatchAt(s, i).Some? && MatchAt(s, i).value.end == PathRunEnd(s, v + 1) + 1
  {
  }

  /**
   * MatchAt is the pattern anchored at `i`: it reports a match exactly when
   * some text at `i` is accepted, and then the longest such text.
   */
  lemma MatchAtIsLongestToken(s: string, i: nat)
    requires i <= |s|
    ensures MatchAt(s, i).None? <==> forall j :: i < j <= |s| ==> !IsToken(s[i..j])
    ensures MatchAt(s, i).Some? ==>
      IsToken(s[i..MatchAt(s, i).value.end])
      && forall j :: MatchAt(s, i).value.end < j <= |s| ==> !IsToken(s[i..j])
  {
    forall j | i < j <= |s| && IsToken(s[i..j])
      ensures MatchAt(s, i).Some? && j <= MatchAt(s, i).value.end
    {
      TokenIsMatched(s, i, j);
    }
    if MatchAt(s, i).Some? {
      MatchIsToken(s, i);
    }
  }

  /** `matcher.find()` resumed at `p`: the leftmost match starting at `p` or later. */
  function FindFrom(s: string, p: nat): (r: Option<Match>)
    requires p <= |s|
    ensures r.Some? ==> p <= r.value.start < r.value.end <= |s| && MatchAt(s, r.value.start) == r
    decreases |s| - p
  {
    match MatchAt(s, p)
    case Some(m) => Some(m)
    case None => if p == |s| then None else FindFrom(s, p + 1)
  }

  /** `find` misses no match: it finds one that starts at any match from `p` on, or earlier. */
  lemma {:induction false} FindFromIsLeftmost(s: string, p: nat, i: nat)
    requires p <= i <= |s| && MatchAt(s, i).Some?
    ensures FindFrom(s, p).Some? && FindFrom(s, p).value.start <= i
    decreases i - p
  {
    if MatchAt(s, p).None? {
      FindFromIsLeftmost(s, p + 1, i);
    }
  }

  /**
   * The matches the `while (matcher.find())` loops visit, from `p` on: in
   * order, without overlap, each a real match of the pattern.
   */
  function AllMatches(s: string, p: nat): (ms: seq<Match>)
    requires p <= |s|
    ensures forall j :: 0 <= j < |ms| ==>
      p <= ms[j].start < ms[j].end <= |s| && MatchAt(s, ms[j].start) == Some(ms[j])
    ensures forall j :: 0 <= j < |ms| - 1 ==> ms[j].end <= ms[j + 1].start
    decreases |s| - p
  {
    match FindFrom(s, p)
    case None => []
    case Some(m) =>
      var rest := AllMatches(s, m.end);
      ConsIndex(m, rest);
      [m] + rest
  }

  /**
   * No match is skipped: every position from `p` on where the pattern matches
   * lies inside one of the visited matches, its own if it starts one.
   */
  lemma {:induction false} AllMatchesCoverEveryMatch(s: string, p: nat, i: nat)
    requires p <= i <= |s| && MatchAt(s, i).Some?
    ensures exists j :: 0 <= j < |AllMatches(s, p)|
                        && AllMatches(s, p)[j].start <= i < AllMatches(s, p)[j].end
    decreases |s| - p
  {
    FindFromIsLeftmost(s, p, i);
    var m := FindFrom(s, p).value;
    var rest := AllMatches(s, m.end);
    AllMatchesStep(s, p);
    ConsIndex(m, rest);
    if i >= m.end {
      AllMatchesCoverEveryMatch(s, m.end, i);
      var j :| 0 <= j < |rest| && rest[j].start <= i < rest[j].end;
      assert AllMatches(s, p)[j + 1] == rest[j];
    } else {
      assert AllMatches(s, p)[0] == m;
    }
  }

  /** A found match opens the list of visited matches, and the scan goes on after it. */
  lemma AllMatchesStep(s: string, p: nat)
    requires p <= |s| && FindFrom(s, p).Some?
    ensures AllMatches(s, p) == [FindFrom(s, p).value] + AllMatches(s, FindFrom(s, p).value.end)
  {
  }

  /** `group(2).replaceAll("\"", "")`: the value with its quotes removed. */
  function Unquote(group2: string): (v: string)
    ensures |v| <= |group2|
  {
    RemoveAll(group2, "\"")
  }

  /** A bare value holds no quote, so it is stored as it is. */
  lemma UnquoteBare(g: string)
    requires IsName(g)
    ensures Unquote(g) == g
  {
    assert '"' !in g by {
      forall n | 0 <= n < |g| ensures g[n] != '"' {
        assert IsAlnum(g[n]);
      }
    }
    AbsentFirstChar(g, "\"");
    RemoveAllAbsent(g, "\"");
  }

  /** A quoted value loses exactly its two quotes. */
  lemma UnquoteQuoted(g: string)
    requires IsQuoted(g)
    ensures Unquote(g) == g[1..|g| - 1]
  {
    var q := "\"";
    var inner := g[1..|g| - 1];
    var tail := g[1..];
    assert OccursAt(g, q, 0) by { assert g[0..1] == [g[0]]; }
    RemoveAllAtStart(g, q);
    forall j | 0 <= j < |inner| ensures !OccursAt(tail, q, j) {
      assert tail[j..j + 1] == [inner[j]];
      assert IsPathChar(inner[j]);
    }
    assert OccursAt(tail, q, |inner|) by { assert tail[|inner|..|inner| + 1] == [g[|g| - 1]]; }
    RemoveAllAtFirst(tail, q, |inner|);
    assert tail[..|inner|] == inner;
  }

  /**
   * A bare value is kept as it is and a quoted one loses exactly its two
   * quotes; either way the stored value is a non-empty run of letters,
   * digits and `/`.
   */
  lemma UnquoteValue(g: string)
    requires IsGroup2(g)
    ensures IsName(g) ==> Unquote(g) == g
    ensures IsQuoted(g) ==> Unquote(g) == g[1..|g| - 1]
    ensures |Unquote(g)| > 0 && AllPath(Unquote(g))
  {
    if IsName(g) {
      UnquoteBare(g);
    } else {
      UnquoteQuoted(g);
    }
  }

  /**
   * parseParams from a given map on: each match, in the order found, puts its
   * name and unquoted value in the map, so a later match of a name overwrites
   * an earlier one.
   */
  function ParamsFrom(acc: map<string, string>, ms: seq<Match>): (r: map<string, string>)
    ensures acc.Keys <= r.Keys
    ensures ms != [] ==> ms[|ms| - 1].name in r && r[ms[|ms| - 1].name] == Unquote(ms[|ms| - 1].group2)
    decreases |ms|
  {
    if ms == [] then acc
    else ParamsFrom(acc[ms[0].name := Unquote(ms[0].group2)], ms[1..])
  }

  /** The keys are the old keys and the name of every match. */
  lemma {:induction false} ParamsFromKeys(acc: map<string, string>, ms: seq<Match>)
    ensures ParamsFrom(acc, ms).Keys == acc.Keys + set m | m in ms :: m.name
    decreases |ms|
  {
    if ms != [] {
      ParamsFromKeys(acc[ms[0].name := Unquote(ms[0].group2)], ms[1..]);
      assert ms == [ms[0]] + ms[1..];
    }
  }

  /** The position of the last match that names `key`, or -1. */
  function LastNaming(ms: seq<Match>, key: string): (j: int)
    ensures -1 <= j < |ms|
    ensures j >= 0 ==> ms[j].name == key
    ensures forall l :: j < l < |ms| ==> ms[l].name != key
    decreases |ms|
  {
    if ms == [] then -1
    else
      var j := LastNaming(ms[1..], key);
      if j >= 0 then j + 1 else if ms[0].name == key then 0 else -1
  }

  /**
   * A key of the result holds the value of the last match that names it, or
   * keeps its old value when no match names it.
   */
  lemma {:induction false} ParamsFromLastWins(acc: map<string, string>, ms: seq<Match>, key: string)
    requires key in ParamsFrom(acc, ms)
    ensures LastNaming(ms, key) >= 0 ==>
      ParamsFrom(acc, ms)[key] == Unquote(ms[LastNaming(ms, key)].group2)
    ensures LastNaming(ms, key) < 0 ==> key in acc && ParamsFrom(acc, ms)[key] == acc[key]
    decreases |ms|
  {
    if ms != [] {
      var m := ms[0];
      var acc' := acc[m.name := Unquote(m.group2)];
      var rest := ms[1..];
      ParamsFromLastWins(acc', rest, key);
      var j := LastNaming(rest, key);
      if j >= 0 {
        assert ms[j + 1] == rest[j];
      }
    }
  }

  /** parseParams: the map the matches of a message build from an empty one. */
  function ParamMap(ms: seq<Match>): (r: map<string, string>)
    ensures r.Keys == set m | m in ms :: m.name
  {
    ParamsFromKeys(map[], ms);
    ParamsFrom(map[], ms)
  }

  /** Every parameter holds the value of the last match that names it. */
  lemma ParamMapLastWins(ms: seq<Match>, key: string)
    requires key in ParamMap(ms)
    ensures LastNaming(ms, key) >= 0
    ensures ParamMap(ms)[key] == Unquote(ms[LastNaming(ms, key)].group2)
  {
    ParamsFromLastWins(map[], ms, key);
  }

  /** The parameter map of a whole message. */
  function ParamsOf(message: string): (r: map<string, string>)
    ensures r == map[] <==> AllMatches(message, 0) == []
  {
    ParamMap(AllMatches(message, 0))
  }

  /**
   * Every key is a non-empty run of ASCII letters and digits, and every value
   * a non-empty run of letters, digits and `/` (letters and digits only when
   * it was not quoted).
   */
  lemma ParametersWellFormed(message: string, key: string)
    requires key in ParamsOf(message)
    ensures IsName(key)
    ensures |ParamsOf(message)[key]| > 0 && AllPath(ParamsOf(message)[key])
  {
    var ms := AllMatches(message, 0);
    ParamMapLastWins(ms, key);
    var m := ms[LastNaming(ms, key)];
    MatchAtText(message, m.start);
    UnquoteValue(m.group2);
  }

  /**
   * parseCommandName: without a space the whole message, untrimmed;
   * otherwise the trimmed text before the first space, which therefore holds
   * no space.
   */
  function CommandName(message: string): (name: string)
    ensures ' ' !in message ==> name == message
    ensures ' ' in message ==> ' ' !in name
    ensures ' ' in message ==>
      exists k :: 0 <= k < |message| && message[k] == ' ' && ' ' !in message[..k]
                  && name == Trim(message[..k])
  {
    var k := IndexOf(message, ' ');
    if k == -1 then message
    else
      Trim(message[..k])
  }

  /** Deletes, match by match, every occurrence of the matched text (String.replace with ""). */
  function RemoveMatches(s: string, ms: seq<Match>): (r: string)
    ensures |r| <= |s|
    ensures ms == [] ==> r == s
    decreases |ms|
  {
    if ms == [] then s else RemoveMatches(RemoveAll(s, ms[0].Text()), ms[1..])
  }

  lemma RemoveMatchesCons(s: string, m: Match, rest: seq<Match>)
    ensures RemoveMatches(s, [m] + rest) == RemoveMatches(RemoveAll(s, m.Text()), rest)
  {
    assert ([m] + rest)[1..] == rest;
  }

  /**
   * parseValue: the message with every occurrence of the command name
   * deleted, then every occurrence of each matched parameter (the matches
   * being those of the original message), then trimmed. It never starts or
   * ends with a character at most U+0020.
   */
  function ValueOf(message: string): (value: string)
    ensures value == [] || (value[0] > ' ' && value[|value| - 1] > ' ')
  {
    Trim(RemoveMatches(RemoveAll(message, CommandName(message)), AllMatches(message, 0)))
  }

  /** parseString: the context of a terminal line; it always exists. */
  function TerminalContext(message: string): (ctx: Context)
    ensures ctx.sourceType == "Terminal"
    ensures ' ' !in ctx.commandName
    ensures ctx.value == [] || (ctx.value[0] > ' ' && ctx.value[|ctx.value| - 1] > ' ')
  {
    Context(CommandName(message), ParamsOf(message), ValueOf(message), TerminalType)
  }

  /** parseParams: fills the map in a `while (matcher.find())` loop. */
  method ParseParams(message: string) returns (params: map<string, string>)
    ensures params == ParamsOf(message)
  {
    params := map[];
    var pos := 0;
    var found := FindFrom(message, pos);
    while found.Some?
      invariant pos <= |message| && found == FindFrom(message, pos)
      invariant ParamsOf(message) == ParamsFrom(params, AllMatches(message, pos))
      decreases |message| - pos
    {
      var m := found.value;
      assert AllMatches(message, pos) == [m] + AllMatches(message, m.end);
      var name := m.name;
      var value := Unquote(m.group2);
      params := params[name := value];
      pos := m.end;
      found := FindFrom(message, pos);
    }
    assert AllMatches(message, pos) == [];
  }

  /** parseValue: reassigns the message once per deletion, then trims it. */
  method ParseValue(message: string) returns (value: string)
    ensures value == ValueOf(message)
  {
    var pos := 0;
    value := RemoveAll(message, CommandName(message));
    var found := FindFrom(message, pos);
    while found.Some?
      invariant pos <= |message| && found == FindFrom(message, pos)
      invariant RemoveMatches(RemoveAll(message, CommandName(message)), AllMatches(message, 0))
                == RemoveMatches(value, AllMatches(message, pos))
      decreases |message| - pos
    {
      var m := found.value;
      AllMatchesStep(message, pos);
      MatchAtText(message, m.start);
      RemoveMatchesCons(value, m, AllMatches(message, m.end));
      value := RemoveAll(value, message[m.start..m.end]);
      pos := m.end;
      found := FindFrom(message, pos);
    }
    assert AllMatches(message, pos) == [];
    value := Trim(value);
  }

  /** parseString: never null, always of source type "Terminal". */
  method ParseString(message: string) returns (ctx: Context)
    ensures ctx == TerminalContext(message)
    ensures ctx.sourceType == "Terminal"
    ensures ctx.commandName == CommandName(message) && ctx.parameters == ParamsOf(message)
  {
    var params := ParseParams(message);
    var value := ParseValue(message);
    ctx := Context(CommandName(message), params, value, TerminalType);
  }

  /** The scanner passes over positions that do not hold `-`. */
  lemma {:induction false} FindFromSkips(s: string, p: nat, q: nat)
    requires p <= q <= |s|
    requires forall i :: p <= i < q ==> s[i] != '-'
    ensures FindFrom(s, p) == FindFrom(s, q)
    decreases q - p
  {
    if p < q {
      assert MatchAt(s, p).None?;
      FindFromSkips(s, p + 1, q);
    }
  }

  /** The matched text never holds a space: a value in quotes cannot either. */
  lemma MatchHasNoSpace(s: string, i: nat)
    requires i <= |s| && MatchAt(s, i).Some?
    ensures forall k :: i <= k < MatchAt(s, i).value.end ==> s[k] != ' '
  {
    var m := MatchAt(s, i).value;
    MatchAtText(s, i);
    TextHasNoSpace(m);
    forall k | i <= k < m.end ensures s[k] != ' ' {
      assert s[k] == s[i..m.end][k - i];
    }
  }

  /** `-`, a name, `=` and a value: no space anywhere. */
  lemma TextHasNoSpace(m: Match)
    requires IsName(m.name) && IsGroup2(m.group2)
    ensures ' ' !in m.Text()
  {
    Group2HasNoSpace(m.group2);
    var t := m.Text();
    forall j | 0 <= j < |t| ensures t[j] != ' ' {
      if 1 <= j <= |m.name| {
        assert t[j] == m.name[j - 1];
      } else if j > |m.name| + 1 {
        assert t[j] == m.group2[j - |m.name| - 2];
      }
    }
  }

  /** Neither alternative of the value admits a space. */
  lemma Group2HasNoSpace(g: string)
    requires IsGroup2(g)
    ensures ' ' !in g
  {
    forall j | 0 <= j < |g| ensures g[j] != ' ' {
      if IsQuoted(g) && 0 < j < |g| - 1 {
        assert g[j] == g[1..|g| - 1][j - 1];
      }
    }
  }

  /** A first word of visible characters, ended by a space, is the command name. */
  lemma NameBeforeSpace(name: string, rest: string)
    requires name != [] && forall k :: 0 <= k < |name| ==> name[k] > ' '
    ensures CommandName(name + [' '] + rest) == name
  {
    var message := name + [' '] + rest;
    assert message[|name|] == ' ' && message[..|name|] == name;
    assert ' ' !in name by {
      forall k | 0 <= k < |name| ensures name[k] != ' ' {
      }
    }
    IndexOfAt(message, ' ', |name|);
    TrimVisible(name);
  }

  /** A one-word message is all command name: its value is empty. */
  lemma OneWordMessage(message: string)
    requires ' ' !in message
    ensures CommandName(message) == message && ValueOf(message) == []
  {
    var name := CommandName(message);
    assert RemoveAll(message, name) == [] by {
      if message != [] {
        assert message[..|message|] == message;
        assert RemoveAll(message, name) == RemoveAll(message[|message|..], name);
      }
    }
    RemoveMatchesOfEmpty(AllMatches(message, 0));
  }

  /** Deleting anything from the empty text leaves it empty. */
  lemma {:induction false} RemoveMatchesOfEmpty(ms: seq<Match>)
    ensures RemoveMatches([], ms) == []
    decreases |ms|
  {
    if ms != [] {
      RemoveMatchesOfEmpty(ms[1..]);
    }
  }

  /** The empty line still gives a context: empty name, no parameters, empty value. */
  lemma EmptyMessageExample(s: string)
    requires s == ""
    ensures TerminalContext(s) == Context("", map[], "", "Terminal")
  {
    assert AllMatches(s, 0) == [];
    assert RemoveAll(s, s) == "";
  }
}
