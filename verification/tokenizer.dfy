/**
 * Splitting one input line into tab-separated tokens the way repeated
 * `strtok(line, "\t")` calls do in analyze_file: runs of tabs act as one
 * separator, leading and trailing tabs are skipped, and no token is empty.
 * A newline is not a separator, so it stays part of the last token.
 */
module Tokenizer {
  import opened Base

  const Tab: char := '\t'

  /** analyze_file keeps at most this many tokens and drops a line that yields fewer. */
  const FieldCount: nat := 9

  /** True when every character of `s` is a tab (the empty string included). */
  predicate AllTabs(s: string)
  {
    forall i :: 0 <= i < |s| ==> s[i] == Tab
  }

  /** The input with its leading tabs removed: where strtok starts looking for a token. */
  function SkipTabs(s: string): (r: string)
    ensures |r| <= |s|
    ensures r == s[|s| - |r|..]
    ensures r == [] || r[0] != Tab
    ensures AllTabs(s[..|s| - |r|])
  {
    if s != [] && s[0] == Tab then
      var r := SkipTabs(s[1..]);
      assert s[..|s| - |r|] == [Tab] + s[1..][..|s| - 1 - |r|];
      r
    else s
  }

  /** The longest prefix of `s` that holds no tab. */
  function TokenRun(s: string): (w: string)
    ensures w <= s
    ensures Tab !in w
    ensures |w| < |s| ==> s[|w|] == Tab
  {
    if s == [] || s[0] == Tab then [] else [s[0]] + TokenRun(s[1..])
  }

  /**
   * One call of strtok: the next token and the text that follows it, or
   * None once only tabs remain.
   */
  function NextToken(s: string): (r: Option<(string, string)>)
    ensures r.None? <==> AllTabs(s)
    ensures r.Some? ==> r.value.0 != [] && Tab !in r.value.0 && |r.value.1| < |s|
  {
    var t := SkipTabs(s);
    if t == [] then None
    else
      var w := TokenRun(t);
      Some((w, t[|w|..]))
  }

  /** Every token that successive strtok calls on `s` hand out, in order. */
  function Tokens(s: string): (ts: seq<string>)
    ensures |ts| <= |s|
    ensures forall w :: w in ts ==> w != [] && Tab !in w
    decreases |s|
  {
    match NextToken(s)
    case None => []
    case Some((w, rest)) => [w] + Tokens(rest)
  }

  /** The tokens still to come when strtok has just returned `next`. */
  function Pending(next: Option<(string, string)>): seq<string>
  {
    match next
    case None => []
    case Some((w, rest)) => [w] + Tokens(rest)
  }

  /** Before the first call, every token is still pending. */
  lemma PendingStart(line: string)
    ensures Pending(NextToken(line)) == Tokens(line)
  {
  }

  /** Taking the token strtok has just returned moves it from the pending tokens to the stored ones. */
  lemma PendingStep(stored: seq<string>, token: Option<(string, string)>, next: Option<(string, string)>)
    requires token.Some? && next == NextToken(token.value.1)
    ensures (stored + [token.value.0]) + Pending(next) == stored + Pending(token)
  {
    assert Pending(token) == [token.value.0] + Pending(next);
  }

  /** The tokens analyze_file keeps from one line: the first nine at most. */
  function LineTokens(line: string): (kept: seq<string>)
    ensures kept <= Tokens(line)
    ensures |kept| <= FieldCount
    ensures |kept| < FieldCount ==> kept == Tokens(line)
  {
    var ts := Tokens(line);
    ts[..Min(FieldCount, |ts|)]
  }

  // Reference definition: split on every tab, keeping empty fields, then drop the empty ones.

  /** The fields between tabs, empty ones included: n tabs give n + 1 fields. */
  function Fields(s: string): (fs: seq<string>)
    ensures |fs| >= 1
    ensures forall i :: 0 <= i < |fs| ==> Tab !in fs[i]
  {
    if s == [] then [[]]
    else if s[0] == Tab then [[]] + Fields(s[1..])
    else
      var fs := Fields(s[1..]);
      [[s[0]] + fs[0]] + fs[1..]
  }

  /** The fields glued back together with one tab between neighbours. */
  function Join(fs: seq<string>): string
    requires |fs| >= 1
  {
    if |fs| == 1 then fs[0] else fs[0] + [Tab] + Join(fs[1..])
  }

  /** The non-empty members of `fs`, in order. */
  function NonEmpty(fs: seq<string>): (r: seq<string>)
    ensures |r| <= |fs|
    ensures forall i :: 0 <= i < |r| ==> r[i] != [] && r[i] in fs
  {
    if fs == [] then []
    else (if fs[0] == [] then [] else [fs[0]]) + NonEmpty(fs[1..])
  }

  /** Joining the fields of a line with tabs gives the line back. */
  lemma {:induction false} JoinFields(s: string)
    ensures Join(Fields(s)) == s
    decreases |s|
  {
    if s == [] {
    } else if s[0] == Tab {
      JoinFields(s[1..]);
      assert Fields(s)[1..] == Fields(s[1..]);
    } else {
      var fs := Fields(s[1..]);
      JoinFields(s[1..]);
      assert Fields(s) == [[s[0]] + fs[0]] + fs[1..];
      if |fs| == 1 {
        assert Join(Fields(s)) == [s[0]] + fs[0];
      } else {
        assert Join(Fields(s)) == ([s[0]] + fs[0]) + [Tab] + Join(fs[1..]);
        assert Join(fs) == fs[0] + [Tab] + Join(fs[1..]);
      }
      assert s == [s[0]] + s[1..];
    }
  }

  /** A tab-free word followed by a tab contributes exactly that word as its first field. */
  lemma {:induction false} FieldsOfWordThenTab(w: string, rest: string)
    requires Tab !in w
    ensures Fields(w + [Tab] + rest) == [w] + Fields(rest)
    decreases |w|
  {
    if w == [] {
      assert w + [Tab] + rest == [Tab] + rest;
      assert ([Tab] + rest)[1..] == rest;
    } else {
      var s := w + [Tab] + rest;
      assert s[0] == w[0];
      assert s[1..] == w[1..] + [Tab] + rest;
      FieldsOfWordThenTab(w[1..], rest);
      assert [w[0]] + w[1..] == w;
    }
  }

  /** A tab-free word is a single field. */
  lemma {:induction false} FieldsOfWord(w: string)
    requires Tab !in w
    ensures Fields(w) == [w]
    decreases |w|
  {
    if w != [] {
      FieldsOfWord(w[1..]);
      assert [w[0]] + w[1..] == w;
    }
  }

  /** Splitting joined tab-free fields gives the fields back. */
  lemma {:induction false} FieldsJoin(fs: seq<string>)
    requires |fs| >= 1
    requires forall i :: 0 <= i < |fs| ==> Tab !in fs[i]
    ensures Fields(Join(fs)) == fs
    decreases |fs|
  {
    if |fs| == 1 {
      FieldsOfWord(fs[0]);
    } else {
      FieldsJoin(fs[1..]);
      FieldsOfWordThenTab(fs[0], Join(fs[1..]));
      assert [fs[0]] + fs[1..] == fs;
    }
  }

  /** The first field of `s` is its leading tab-free run; the remaining fields start after the tab ending it. */
  lemma {:induction false} FieldsAfterRun(s: string)
    ensures var w := TokenRun(s);
      Fields(s) == [w] + (if |w| == |s| then [] else Fields(s[|w| + 1..]))
    decreases |s|
  {
    if s != [] && s[0] != Tab {
      var w' := TokenRun(s[1..]);
      FieldsAfterRun(s[1..]);
      assert TokenRun(s) == [s[0]] + w';
      if |w'| < |s| - 1 {
        assert s[1..][|w'| + 1..] == s[|w'| + 2..];
      }
    }
  }

  /** A leading tab changes nothing about the tokens strtok returns. */
  lemma TokensSkipTab(s: string)
    requires s != [] && s[0] == Tab
    ensures Tokens(s) == Tokens(s[1..])
  {
    assert SkipTabs(s) == SkipTabs(s[1..]);
  }

  /** A line starting with a non-tab yields its leading run as first token. */
  lemma TokensOfRun(s: string)
    requires s != [] && s[0] != Tab
    ensures TokenRun(s) != []
    ensures Tokens(s) == [TokenRun(s)] + Tokens(s[|TokenRun(s)|..])
  {
    assert SkipTabs(s) == s;
  }

  lemma NonEmptyCons(w: string, rest: seq<string>)
    ensures NonEmpty([w] + rest) == (if w == [] then [] else [w]) + NonEmpty(rest)
  {
    assert ([w] + rest)[1..] == rest;
  }

  /**
   * The strtok tokens of a line are exactly its non-empty tab-separated
   * fields: runs of tabs collapse and empty tokens never appear.
   */
  lemma {:induction false} TokensAreNonEmptyFields(s: string)
    ensures Tokens(s) == NonEmpty(Fields(s))
    decreases |s|
  {
    if s == [] {
    } else if s[0] == Tab {
      TokensSkipTab(s);
      TokensAreNonEmptyFields(s[1..]);
      assert Fields(s) == [[]] + Fields(s[1..]);
      NonEmptyCons([], Fields(s[1..]));
    } else {
      var w := TokenRun(s);
      TokensOfRun(s);
      FieldsAfterRun(s);
      if |w| == |s| {
        assert Fields(s) == [w] + [];
        NonEmptyCons(w, []);
        assert Tokens(s[|w|..]) == [] by {
          assert s[|w|..] == [];
        }
      } else {
        var rest := Fields(s[|w| + 1..]);
        assert Fields(s) == [w] + rest;
        NonEmptyCons(w, rest);
        assert Tokens(s[|w|..]) == Tokens(s[|w| + 1..]) by {
          TokensSkipTab(s[|w|..]);
          assert s[|w|..][1..] == s[|w| + 1..];
        }
        TokensAreNonEmptyFields(s[|w| + 1..]);
      }
    }
  }

  /**
   * What analyze_file keeps of a line: the first nine non-empty
   * tab-separated fields (all of them when there are fewer), none empty
   * and none holding a tab.
   */
  lemma LineTokensAreFirstFields(line: string)
    ensures LineTokens(line) <= NonEmpty(Fields(line))
    ensures |LineTokens(line)| == Min(FieldCount, |NonEmpty(Fields(line))|)
    ensures forall i :: 0 <= i < |LineTokens(line)| ==>
      LineTokens(line)[i] != [] && Tab !in LineTokens(line)[i]
  {
    TokensAreNonEmptyFields(line);
    var ts := LineTokens(line);
    forall i | 0 <= i < |ts|
      ensures ts[i] != [] && Tab !in ts[i]
    {
      assert ts[i] == NonEmpty(Fields(line))[i];
    }
  }

  /** When the token loop stops, it holds the first nine tokens, or all of them if there are fewer. */
  lemma LoopExit(line: string, tokens: seq<string>, token: Option<(string, string)>)
    requires |tokens| <= FieldCount
    requires tokens + Pending(token) == Tokens(line)
    requires token.None? || |tokens| == FieldCount
    ensures tokens == LineTokens(line)
  {
    var all := Tokens(line);
    assert tokens == all[..|tokens|];
  }

  /**
   * The token loop of analyze_file: it stores what strtok returns until
   * strtok runs out or nine tokens are stored.
   */
  method TokenizeLine(line: string) returns (tokens: seq<string>)
    ensures tokens == LineTokens(line)
    ensures tokens <= NonEmpty(Fields(line))
    ensures |tokens| == Min(FieldCount, |NonEmpty(Fields(line))|)
    ensures forall i :: 0 <= i < |tokens| ==> tokens[i] != [] && Tab !in tokens[i]
  {
    tokens := [];
    var token := NextToken(line);
    PendingStart(line);
    while token.Some? && |tokens| < FieldCount
      invariant |tokens| <= FieldCount
      invariant tokens + Pending(token) == Tokens(line)
      decreases FieldCount - |tokens|
    {
      var next := NextToken(token.value.1);
      PendingStep(tokens, token, next);
      tokens := tokens + [token.value.0];
      token := next;
    }
    LoopExit(line, tokens, token);
    LineTokensAreFirstFields(line);
  }
}
