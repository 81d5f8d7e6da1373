/**
 * The string helpers of `StringUtils`: length and text predicates, a
 * `StringTokenizer`-based splitter, and the collection-to-array copy.
 */
module StringUtils {
  import opened Wrappers
  import opened JavaString

  /** `hasLength`: the string is present and not empty. */
  function HasLength(str: Option<string>): (r: bool)
    ensures r <==> str.Some? && |str.value| > 0
  {
    str.Some? && str.value != []
  }

  /** `containsText`: some character is not whitespace. */
  function ContainsText(str: string): (r: bool)
    ensures r <==> exists i :: 0 <= i < |str| && !IsWhitespace(str[i])
  {
    ContainsTextFrom(str, 0)
  }

  /** The loop of `containsText`, from index `i` on. */
  function ContainsTextFrom(str: string, i: nat): (r: bool)
    requires i <= |str|
    ensures r <==> exists j :: i <= j < |str| && !IsWhitespace(str[j])
    decreases |str| - i
  {
    if i == |str| then false
    else if !IsWhitespace(str[i]) then true
    else ContainsTextFrom(str, i + 1)
  }

  /** `hasText`: the string is present, not empty, and not whitespace only. */
  function HasText(str: Option<string>): (r: bool)
    ensures r <==> str.Some? && exists i :: 0 <= i < |str.value| && !IsWhitespace(str.value[i])
    ensures r ==> HasLength(str)
  {
    str.Some? && str.value != [] && ContainsText(str.value)
  }

  /** A string of spaces has length but no text. */
  lemma WhitespaceOnlyHasLengthButNoText()
    ensures HasLength(Some("  \t"))
    ensures !HasText(Some("  \t"))
  {
  }

  /** `toStringArray`: a missing or empty collection and a non-empty one alike come back element for element. */
  function ToStringArray(collection: Option<seq<string>>): (r: seq<string>)
    ensures collection.None? ==> r == []
    ensures collection.Some? ==> |r| == |collection.value|
    ensures collection.Some? ==> forall k :: 0 <= k < |r| ==> r[k] == collection.value[k]
  {
    if collection.None? || collection.value == [] then [] else collection.value
  }

  // ---------------------------------------------------------------------
  // Tokenizing: the reference definition of what `StringTokenizer` yields
  // ---------------------------------------------------------------------

  /** Length of the longest prefix of `s` holding no delimiter character. */
  function RunLength(s: string, delimiters: string): (n: nat)
    ensures n <= |s|
    ensures forall i :: 0 <= i < n ==> s[i] !in delimiters
    ensures n < |s| ==> s[n] in delimiters
  {
    if |s| == 0 || s[0] in delimiters then 0 else 1 + RunLength(s[1..], delimiters)
  }

  /**
   * The tokens a `StringTokenizer` over `s` returns: the maximal runs of
   * characters none of which occurs in `delimiters`, in order. Delimiters at
   * either end or several in a row yield no empty token.
   */
  function Tokens(s: string, delimiters: string): seq<string>
    decreases |s|
  {
    if |s| == 0 then []
    else if s[0] in delimiters then Tokens(s[1..], delimiters)
    else
      var n := RunLength(s, delimiters);
      [s[..n]] + Tokens(s[n..], delimiters)
  }

  /** One token after the optional trim, kept or dropped by the empty-token filter. */
  function Keep(token: string, trimTokens: bool, ignoreEmptyTokens: bool): seq<string>
  {
    var t := if trimTokens then Trim(token) else token;
    if !ignoreEmptyTokens || |t| > 0 then [t] else []
  }

  /** `Keep` applied to each token in turn. */
  function KeepAll(tokens: seq<string>, trimTokens: bool, ignoreEmptyTokens: bool): seq<string>
  {
    if tokens == [] then []
    else Keep(tokens[0], trimTokens, ignoreEmptyTokens) + KeepAll(tokens[1..], trimTokens, ignoreEmptyTokens)
  }

  /** The array `tokenizeToStringArray` returns, by definition. */
  function Tokenized(str: Option<string>, delimiters: string, trimTokens: bool, ignoreEmptyTokens: bool): seq<string>
  {
    match str
    case None => []
    case Some(s) => KeepAll(Tokens(s, delimiters), trimTokens, ignoreEmptyTokens)
  }

  /**
   * A non-empty delimiter-free run `s[start..end]` followed by the end or a
   * delimiter is exactly the next token of `s[start..]`.
   */
  lemma TokensOfRun(s: string, delimiters: string, start: nat, end: nat)
    requires start < end <= |s|
    requires forall k :: start <= k < end ==> s[k] !in delimiters
    requires end < |s| ==> s[end] in delimiters
    ensures Tokens(s[start..], delimiters) == [s[start..end]] + Tokens(s[end..], delimiters)
  {
    var u := s[start..];
    var n := end - start;
    assert RunLength(u, delimiters) == n;
    assert u[..n] == s[start..end];
    assert u[n..] == s[end..];
  }

  /** A delimiter at index `i` contributes no token. */
  lemma SkipDelimiter(s: string, delimiters: string, i: nat)
    requires i < |s| && s[i] in delimiters
    ensures Tokens(s[i..], delimiters) == Tokens(s[i + 1..], delimiters)
  {
    assert s[i..][1..] == s[i + 1..];
  }

  /** Keeping a list headed by `t` keeps (or drops) `t`, then handles the rest. */
  lemma KeepAllCons(t: string, rest: seq<string>, trimTokens: bool, ignoreEmptyTokens: bool)
    ensures KeepAll([t] + rest, trimTokens, ignoreEmptyTokens)
         == Keep(t, trimTokens, ignoreEmptyTokens) + KeepAll(rest, trimTokens, ignoreEmptyTokens)
  {
    assert ([t] + rest)[0] == t;
    assert ([t] + rest)[1..] == rest;
  }

  /** The run `s[start..end]` is the next token, kept or dropped by `Keep`, before the tokens of `s[end..]`. */
  lemma TakeRun(s: string, delimiters: string, start: nat, end: nat, trimTokens: bool, ignoreEmptyTokens: bool)
    requires start < end <= |s|
    requires forall k :: start <= k < end ==> s[k] !in delimiters
    requires end < |s| ==> s[end] in delimiters
    ensures KeepAll(Tokens(s[start..], delimiters), trimTokens, ignoreEmptyTokens)
         == Keep(s[start..end], trimTokens, ignoreEmptyTokens) + KeepAll(Tokens(s[end..], delimiters), trimTokens, ignoreEmptyTokens)
  {
    TokensOfRun(s, delimiters, start, end);
    KeepAllCons(s[start..end], Tokens(s[end..], delimiters), trimTokens, ignoreEmptyTokens);
  }

  // ---------------------------------------------------------------------
  // Properties of the reference definition
  // ---------------------------------------------------------------------

  /** No character of `t` is a delimiter. */
  ghost predicate DelimiterFree(t: string, delimiters: string) {
    forall j :: 0 <= j < |t| ==> t[j] !in delimiters
  }

  /** The tokens one after the other. */
  function Concat(ts: seq<string>): string {
    if ts == [] then [] else ts[0] + Concat(ts[1..])
  }

  /** `s` with every delimiter character deleted. */
  function WithoutDelimiters(s: string, delimiters: string): string {
    if s == [] then []
    else (if s[0] in delimiters then [] else [s[0]]) + WithoutDelimiters(s[1..], delimiters)
  }

  /** The tokens joined back together with the single delimiter `sep` between neighbours. */
  function Join(ts: seq<string>, sep: char): string {
    if ts == [] then []
    else if |ts| == 1 then ts[0]
    else ts[0] + [sep] + Join(ts[1..], sep)
  }

  /** Every token is non-empty and holds no delimiter character. */
  lemma {:induction false} TokensAreNonEmptyRuns(s: string, delimiters: string)
    ensures forall k :: 0 <= k < |Tokens(s, delimiters)| ==>
              |Tokens(s, delimiters)[k]| > 0 && DelimiterFree(Tokens(s, delimiters)[k], delimiters)
    decreases |s|
  {
    if |s| == 0 {
    } else if s[0] in delimiters {
      TokensAreNonEmptyRuns(s[1..], delimiters);
    } else {
      var n := RunLength(s, delimiters);
      TokensAreNonEmptyRuns(s[n..], delimiters);
      var ts := Tokens(s, delimiters);
      forall k | 0 <= k < |ts|
        ensures |ts[k]| > 0 && DelimiterFree(ts[k], delimiters)
      {
        if k > 0 {
          assert ts[k] == Tokens(s[n..], delimiters)[k - 1];
        }
      }
    }
  }

  /** Deleting delimiters distributes over concatenation. */
  lemma {:induction false} WithoutDelimitersAppend(a: string, b: string, delimiters: string)
    ensures WithoutDelimiters(a + b, delimiters) == WithoutDelimiters(a, delimiters) + WithoutDelimiters(b, delimiters)
    decreases |a|
  {
    if a == [] {
      assert a + b == b;
    } else {
      assert (a + b)[1..] == a[1..] + b;
      WithoutDelimitersAppend(a[1..], b, delimiters);
    }
  }

  /** Deleting delimiters from a delimiter-free string changes nothing. */
  lemma {:induction false} WithoutDelimitersOfRun(a: string, delimiters: string)
    requires DelimiterFree(a, delimiters)
    ensures WithoutDelimiters(a, delimiters) == a
    decreases |a|
  {
    if a != [] {
      WithoutDelimitersOfRun(a[1..], delimiters);
      assert a == [a[0]] + a[1..];
    }
  }

  /** The tokens, in order, spell out the input with its delimiters deleted. */
  lemma {:induction false} TokensConcat(s: string, delimiters: string)
    ensures Concat(Tokens(s, delimiters)) == WithoutDelimiters(s, delimiters)
    decreases |s|
  {
    if |s| == 0 {
    } else if s[0] in delimiters {
      TokensConcat(s[1..], delimiters);
    } else {
      var n := RunLength(s, delimiters);
      TokensConcat(s[n..], delimiters);
      var ts := Tokens(s, delimiters);
      assert ts[0] == s[..n] && ts[1..] == Tokens(s[n..], delimiters);
      assert s == s[..n] + s[n..];
      WithoutDelimitersAppend(s[..n], s[n..], delimiters);
      WithoutDelimitersOfRun(s[..n], delimiters);
    }
  }

  /**
   * Round trip: joining non-empty delimiter-free tokens with any delimiter
   * character and tokenizing the result gives the tokens back.
   */
  lemma {:induction false} TokensOfJoin(ts: seq<string>, sep: char, delimiters: string)
    requires sep in delimiters
    requires forall k :: 0 <= k < |ts| ==> |ts[k]| > 0 && DelimiterFree(ts[k], delimiters)
    ensures Tokens(Join(ts, sep), delimiters) == ts
    decreases |ts|
  {
    if |ts| == 0 {
    } else if |ts| == 1 {
      TokensOfRun(ts[0], delimiters, 0, |ts[0]|);
      assert ts[0][0..] == ts[0] && ts[0][0..|ts[0]|] == ts[0];
      assert ts[0][|ts[0]|..] == [];
      assert ts == [ts[0]];
    } else {
      var s := Join(ts, sep);
      var n := |ts[0]|;
      assert s[0..] == s && s[0..n] == ts[0];
      TokensOfRun(s, delimiters, 0, n);
      assert s[n..] == [sep] + Join(ts[1..], sep);
      assert s[n..][1..] == Join(ts[1..], sep);
      TokensOfJoin(ts[1..], sep, delimiters);
    }
  }

  /** Untrimmed non-empty tokens all survive the filter unchanged. */
  lemma {:induction false} KeepAllUntrimmed(ts: seq<string>, ignoreEmptyTokens: bool)
    requires forall k :: 0 <= k < |ts| ==> |ts[k]| > 0
    ensures KeepAll(ts, false, ignoreEmptyTokens) == ts
    decreases |ts|
  {
    if ts != [] {
      KeepAllUntrimmed(ts[1..], ignoreEmptyTokens);
    }
  }

  /** With the empty-token filter on, nothing empty is kept. */
  lemma {:induction false} KeepAllNonEmpty(ts: seq<string>, trimTokens: bool)
    ensures forall t :: t in KeepAll(ts, trimTokens, true) ==> |t| > 0
    decreases |ts|
  {
    if ts != [] {
      KeepAllNonEmpty(ts[1..], trimTokens);
    }
  }

  /** With trimming on, no kept token starts or ends with a character `trim()` strips. */
  lemma {:induction false} KeepAllTrimmed(ts: seq<string>, ignoreEmptyTokens: bool)
    ensures forall t :: t in KeepAll(ts, true, ignoreEmptyTokens) ==> IsTrimmed(t)
    decreases |ts|
  {
    if ts != [] {
      KeepAllTrimmed(ts[1..], ignoreEmptyTokens);
    }
  }

  /**
   * What the flags promise of a result `tokens`: nothing for a missing string;
   * no empty token under `ignoreEmptyTokens`; no token starting or ending with
   * a trimmable character under `trimTokens`; and, with trimming off, exactly
   * the tokenizer's tokens whatever `ignoreEmptyTokens` says.
   */
  ghost predicate TokenizedShape(str: Option<string>, delimiters: string, trimTokens: bool, ignoreEmptyTokens: bool,
                                 tokens: seq<string>)
  {
    && (str.None? ==> tokens == [])
    && (ignoreEmptyTokens ==> forall t :: t in tokens ==> |t| > 0)
    && (trimTokens ==> forall t :: t in tokens ==> IsTrimmed(t))
    && (str.Some? && !trimTokens ==> tokens == Tokens(str.value, delimiters))
  }

  /** The reference result has the shape its flags promise. */
  lemma TokenizedProperties(str: Option<string>, delimiters: string, trimTokens: bool, ignoreEmptyTokens: bool)
    ensures TokenizedShape(str, delimiters, trimTokens, ignoreEmptyTokens, Tokenized(str, delimiters, trimTokens, ignoreEmptyTokens))
  {
    if str.Some? {
      var ts := Tokens(str.value, delimiters);
      TokensAreNonEmptyRuns(str.value, delimiters);
      if !trimTokens {
        KeepAllUntrimmed(ts, ignoreEmptyTokens);
      }
      if ignoreEmptyTokens {
        KeepAllNonEmpty(ts, trimTokens);
      }
      if trimTokens {
        KeepAllTrimmed(ts, ignoreEmptyTokens);
      }
    }
  }

  lemma ConcatAssoc<T>(a: seq<T>, b: seq<T>, c: seq<T>)
    ensures (a + b) + c == a + (b + c)
  {
  }

  /**
   * The token scan of `StringTokenizer`: from a non-delimiter at `start`, the
   * position just past the maximal delimiter-free run beginning there.
   */
  method ScanToken(s: string, delimiters: string, start: nat) returns (end: nat)
    requires start < |s| && s[start] !in delimiters
    ensures start < end <= |s|
    ensures forall k :: start <= k < end ==> s[k] !in delimiters
    ensures end < |s| ==> s[end] in delimiters
  {
    end := start + 1;
    while end < |s| && s[end] !in delimiters
      invariant start < end <= |s|
      invariant forall k :: start <= k < end ==> s[k] !in delimiters
    {
      end := end + 1;
    }
  }

  /** The body of the tokenizing loop for one token: optional trim, then append unless filtered out. */
  method AddToken(list: seq<string>, token: string, trimTokens: bool, ignoreEmptyTokens: bool) returns (list': seq<string>)
    ensures list' == list + Keep(token, trimTokens, ignoreEmptyTokens)
  {
    var t := token;
    if trimTokens {
      t := Trim(t);
    }
    list' := list;
    if !ignoreEmptyTokens || |t| > 0 {
      list' := list' + [t];
    }
  }

  /**
   * `tokenizeToStringArray`: scans `str` once, skipping delimiter characters
   * and cutting each maximal run of other characters as a token, which is then
   * optionally trimmed and optionally dropped when empty.
   */
  method TokenizeToStringArray(str: Option<string>, delimiters: string, trimTokens: bool, ignoreEmptyTokens: bool)
    returns (tokens: seq<string>)
    ensures tokens == Tokenized(str, delimiters, trimTokens, ignoreEmptyTokens)
    ensures TokenizedShape(str, delimiters, trimTokens, ignoreEmptyTokens, tokens)
  {
    if str.None? {
      return [];
    }
    var s := str.value;
    ghost var all := KeepAll(Tokens(s, delimiters), trimTokens, ignoreEmptyTokens);
    var list: seq<string> := [];
    var i := 0;
    assert s[i..] == s;
    while i < |s|
      invariant 0 <= i <= |s|
      invariant list + KeepAll(Tokens(s[i..], delimiters), trimTokens, ignoreEmptyTokens) == all
    {
      if s[i] in delimiters {
        SkipDelimiter(s, delimiters, i);
        i := i + 1;
      } else {
        var start := i;
        i := ScanToken(s, delimiters, start);
        TakeRun(s, delimiters, start, i, trimTokens, ignoreEmptyTokens);
        ghost var before := list;
        ghost var later := KeepAll(Tokens(s[i..], delimiters), trimTokens, ignoreEmptyTokens);
        list := AddToken(list, s[start..i], trimTokens, ignoreEmptyTokens);
        ConcatAssoc(before, Keep(s[start..i], trimTokens, ignoreEmptyTokens), later);
      }
    }
    tokens := ToStringArray(Some(list));
    TokenizedProperties(str, delimiters, trimTokens, ignoreEmptyTokens);
  }
}
