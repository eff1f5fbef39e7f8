/**
 * Messages of a known shape and what the terminal parser makes of them,
 * ending in the two worked examples `greet -name=Bob extra text` and
 * `greet -name="Bob Jones"`.
 */
module TerminalExamples {
  import opened Wrappers
  import opened JavaString
  import opened Commands
  import opened TerminalParser

  /** `-name=value` with a bare value, laid out in `s` from `i`, the `=` at `k`, up to `e`. */
  lemma BareMatchAt(s: string, i: nat, k: nat, e: nat)
    requires i + 1 < k && k + 1 < e <= |s| && s[i] == '-' && s[k] == '='
    requires forall n :: i + 1 <= n < k ==> IsAlnum(s[n])
    requires forall n :: k + 1 <= n < e ==> IsAlnum(s[n])
    requires e == |s| || !IsAlnum(s[e])
    ensures MatchAt(s, i) == Some(Match(i, e, s[i + 1..k], s[k + 1..e]))
  {
    AlnumRunEndAt(s, i + 1, k);
    AlnumRunEndAt(s, k + 1, e);
    BareValueAfterName(s, i, k);
  }

  /** Once `-name=` is read up to the `=` at `k`, a bare value gives the match. */
  lemma BareValueAfterName(s: string, i: nat, k: nat)
    requires i < k < |s| && s[i] == '-' && s[k] == '='
    requires AlnumRunEnd(s, i + 1) == k && k > i + 1 && AlnumRunEnd(s, k + 1) > k + 1
    ensures MatchAt(s, i) == Some(Match(i, AlnumRunEnd(s, k + 1), s[i + 1..k], s[k + 1..AlnumRunEnd(s, k + 1)]))
  {
  }

  /** A match with no `-` before or after it is the only one. */
  lemma OnlyMatch(s: string, m: Match)
    requires m.start < m.end <= |s| && MatchAt(s, m.start) == Some(m)
    requires forall n :: 0 <= n < m.start ==> s[n] != '-'
    requires forall n :: m.end <= n < |s| ==> s[n] != '-'
    ensures AllMatches(s, 0) == [m]
  {
    FindFromSkips(s, 0, m.start);
    FindFromSkips(s, m.end, |s|);
    assert AllMatches(s, m.end) == [];
    AllMatchesStep(s, 0);
  }

  /** `s` holds `t` from position `j` on. */
  predicate HoldsAt(s: string, j: nat, t: string)
  {
    j + |t| <= |s| && forall n :: j <= n < j + |t| ==> s[n] == t[n - j]
  }

  /** A name held at `j` is that slice of `s`, all letters and digits. */
  lemma NameHeldAt(s: string, j: nat, t: string)
    requires IsName(t) && HoldsAt(s, j, t)
    ensures s[j..j + |t|] == t
    ensures forall n :: j <= n < j + |t| ==> IsAlnum(s[n])
  {
    forall n | j <= n < j + |t| ensures IsAlnum(s[n]) {
      assert s[n] == t[n - j];
    }
  }

  /**
   * `s` holds `-key=val` at `i`, a bare value stopped by the end or by a
   * character that is not a letter or digit, and no other `-`.
   */
  predicate SingleParameterShape(s: string, i: nat, key: string, val: string)
  {
    var k := i + 1 + |key|;
    var e := k + 1 + |val|;
    && e <= |s| && s[i] == '-' && s[k] == '='
    && HoldsAt(s, i + 1, key) && HoldsAt(s, k + 1, val)
    && (forall n :: 0 <= n < i ==> s[n] != '-')
    && (forall n :: e <= n < |s| ==> s[n] != '-')
    && (e == |s| || !IsAlnum(s[e]))
  }

  /** The single-parameter message, stated on positions only. */
  lemma SingleParameterAt(s: string, i: nat, key: string, val: string)
    requires IsName(key) && IsName(val) && SingleParameterShape(s, i, key, val)
    ensures AllMatches(s, 0) == [Match(i, i + |key| + |val| + 2, key, val)]
  {
    var k := i + 1 + |key|;
    var e := k + 1 + |val|;
    NameHeldAt(s, i + 1, key);
    NameHeldAt(s, k + 1, val);
    BareMatchAt(s, i, k, e);
    var m := Match(i, e, key, val);
    assert m == Match(i, i + |key| + |val| + 2, key, val);
    OnlyMatch(s, m);
  }

  /** `greet -name=Bob extra text` holds one parameter token, at 6. */
  lemma GreetShape()
    ensures SingleParameterShape("greet -name=Bob extra text", 6, "name", "Bob")
    ensures IsName("name") && IsName("Bob")
  {
  }

  lemma GreetMatches()
    ensures AllMatches("greet -name=Bob extra text", 0) == [Match(6, 15, "name", "Bob")]
  {
    GreetShape();
    SingleParameterAt("greet -name=Bob extra text", 6, "name", "Bob");
  }

  lemma GreetName()
    ensures CommandName("greet -name=Bob extra text") == "greet"
  {
    assert "greet -name=Bob extra text" == "greet" + [' '] + "-name=Bob extra text";
    NameBeforeSpace("greet", "-name=Bob extra text");
  }

  lemma GreetParams()
    ensures ParamsOf("greet -name=Bob extra text") == map["name" := "Bob"]
  {
    GreetMatches();
    GreetShape();
    UnquoteBare("Bob");
  }

  /** Deleting the command name `greet` leaves the rest of the line. */
  lemma GreetDropName()
    ensures RemoveAll("greet -name=Bob extra text", "greet") == " -name=Bob extra text"
  {
    assert "greet -name=Bob extra text" == [] + "greet" + " -name=Bob extra text";
    assert 'g' !in " -name=Bob extra text";
    RemoveAllOnce([], "greet", " -name=Bob extra text");
  }

  /** Deleting the parameter text `-name=Bob` leaves two spaces before `extra text`. */
  lemma GreetDropParameter()
    ensures RemoveAll(" -name=Bob extra text", "-name=Bob") == "  extra text"
  {
    GreetAroundParameter();
    RemoveAllOnce(" ", "-name=Bob", " extra text");
  }

  lemma GreetAroundParameter()
    ensures " -name=Bob extra text" == " " + "-name=Bob" + " extra text"
    ensures '-' !in " " && '-' !in " extra text"
    ensures " " + " extra text" == "  extra text"
  {
  }

  lemma GreetTrim()
    ensures Trim("  extra text") == "extra text"
  {
    assert "  extra text"[1..] == " extra text";
    assert " extra text"[1..] == "extra text";
    assert TrimStart("extra text") == "extra text";
  }

  lemma GreetParameterText()
    ensures Match(6, 15, "name", "Bob").Text() == "-name=Bob"
  {
  }

  lemma GreetValue()
    ensures ValueOf("greet -name=Bob extra text") == "extra text"
  {
    var m := Match(6, 15, "name", "Bob");
    GreetName();
    GreetMatches();
    GreetDropName();
    RemoveMatchesCons(" -name=Bob extra text", m, []);
    GreetParameterText();
    GreetDropParameter();
    GreetTrim();
  }

  /**
   * `greet -name=Bob extra text`: command `greet`, parameter `name` = `Bob`,
   * value `extra text`.
   */
  lemma GreetExample()
    ensures TerminalContext("greet -name=Bob extra text")
            == Context("greet", map["name" := "Bob"], "extra text", "Terminal")
  {
    GreetName();
    GreetParams();
    GreetValue();
  }

  /**
   * `-name="...` whose quoted run of letters, digits and `/` is cut off at
   * `p` by a character that is neither of those nor a quote: no match at `i`.
   */
  lemma QuotedValueCutOff(s: string, i: nat, k: nat, p: nat)
    requires i + 1 < k && k + 2 <= p < |s| && s[i] == '-' && s[k] == '='
    requires forall n :: i + 1 <= n < k ==> IsAlnum(s[n])
    requires s[k + 1] == '"' && s[p] != '"' && !IsPathChar(s[p])
    requires forall n :: k + 2 <= n < p ==> IsPathChar(s[n])
    ensures MatchAt(s, i).None?
  {
    AlnumRunEndAt(s, i + 1, k);
    assert !IsAlnum(s[k + 1]);
    AlnumRunEndAt(s, k + 1, k + 1);
    PathRunEndAt(s, k + 2, p);
  }

  /** When the only `-` of a line starts no match, the line has no match at all. */
  lemma OnlyDashUnmatched(s: string, i: nat)
    requires i < |s| && MatchAt(s, i).None?
    requires forall n :: 0 <= n < |s| && n != i ==> s[n] != '-'
    ensures AllMatches(s, 0) == []
  {
    FindFromSkips(s, 0, i);
    FindFromSkips(s, i + 1, |s|);
  }

  /**
   * `s` holds `-key="` at `i`, with the `=` at `k`, and the quoted run is cut
   * off at `p`; `i` holds the only `-`.
   */
  predicate QuotedCutOffShape(s: string, i: nat, k: nat, p: nat)
  {
    && i + 1 < k && k + 2 <= p < |s| && s[i] == '-' && s[k] == '='
    && (forall n :: i + 1 <= n < k ==> IsAlnum(s[n]))
    && s[k + 1] == '"' && s[p] != '"' && !IsPathChar(s[p])
    && (forall n :: k + 2 <= n < p ==> IsPathChar(s[n]))
    && (forall n :: 0 <= n < |s| && n != i ==> s[n] != '-')
  }

  lemma QuotedSpaceShape()
    ensures QuotedCutOffShape("greet -name=\"Bob Jones\"", 6, 11, 16)
  {
  }

  lemma QuotedSpaceMatches()
    ensures AllMatches("greet -name=\"Bob Jones\"", 0) == []
  {
    var s := "greet -name=\"Bob Jones\"";
    QuotedSpaceShape();
    QuotedValueCutOff(s, 6, 11, 16);
    OnlyDashUnmatched(s, 6);
  }

  lemma QuotedSpaceParams()
    ensures ParamsOf("greet -name=\"Bob Jones\"") == map[]
  {
    QuotedSpaceMatches();
  }

  lemma QuotedSpaceName()
    ensures CommandName("greet -name=\"Bob Jones\"") == "greet"
  {
    assert "greet -name=\"Bob Jones\"" == "greet" + [' '] + "-name=\"Bob Jones\"";
    NameBeforeSpace("greet", "-name=\"Bob Jones\"");
  }

  lemma QuotedSpaceDropName()
    ensures RemoveAll("greet -name=\"Bob Jones\"", "greet") == " -name=\"Bob Jones\""
  {
    assert "greet -name=\"Bob Jones\"" == [] + "greet" + " -name=\"Bob Jones\"";
    assert 'g' !in " -name=\"Bob Jones\"";
    RemoveAllOnce([], "greet", " -name=\"Bob Jones\"");
  }

  lemma QuotedSpaceTrim()
    ensures Trim(" -name=\"Bob Jones\"") == "-name=\"Bob Jones\""
  {
    assert " -name=\"Bob Jones\""[1..] == "-name=\"Bob Jones\"";
    assert TrimStart("-name=\"Bob Jones\"") == "-name=\"Bob Jones\"";
  }

  lemma QuotedSpaceValue()
    ensures ValueOf("greet -name=\"Bob Jones\"") == "-name=\"Bob Jones\""
  {
    QuotedSpaceName();
    QuotedSpaceMatches();
    QuotedSpaceDropName();
    QuotedSpaceTrim();
  }

  /**
   * `greet -name="Bob Jones"`: a quoted value may not hold a space, so the
   * line has no parameter, and the token stays in the value.
   */
  lemma QuotedSpaceExample()
    ensures TerminalContext("greet -name=\"Bob Jones\"")
            == Context("greet", map[], "-name=\"Bob Jones\"", "Terminal")
  {
    QuotedSpaceName();
    QuotedSpaceParams();
    QuotedSpaceValue();
  }

  /** A line without `-` has no parameter. */
  lemma NoDashNoParameters(s: string)
    requires '-' !in s
    ensures AllMatches(s, 0) == [] && ParamsOf(s) == map[]
  {
    FindFromSkips(s, 0, |s|);
  }

  /** A single word without `-` is the whole context: that name, nothing else. */
  lemma SingleWordContext(word: string)
    requires ' ' !in word && '-' !in word
    ensures TerminalContext(word) == Context(word, map[], "", "Terminal")
  {
    OneWordMessage(word);
    NoDashNoParameters(word);
  }
}

