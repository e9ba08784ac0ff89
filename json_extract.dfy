/** `extractJsonCandidate`: recover the JSON text from a noisy model answer.
    The answer is trimmed; if it is empty or parses, it is returned. Otherwise
    the text from the first `[` or `{` to the last `]` or `}` is taken, and it
    must parse. There is no bracket matching: prose containing brackets can
    widen or empty the slice. `parses` stands for `JSON.parse` succeeding. */
module JsonExtract {
  import opened Wrappers
  import opened JsStrings
  import opened RunnerErrors

  predicate IsOpener(c: char) { c == '[' || c == '{' }
  predicate IsCloser(c: char) { c == ']' || c == '}' }

  /** `t[i]` is the first opening bracket of `t`. */
  predicate FirstOpenerAt(t: string, i: int) {
    0 <= i < |t| && IsOpener(t[i]) && forall k :: 0 <= k < i ==> !IsOpener(t[k])
  }

  /** `t[j]` is the last closing bracket of `t`. */
  predicate LastCloserAt(t: string, j: int) {
    0 <= j < |t| && IsCloser(t[j]) && forall k :: j < k < |t| ==> !IsCloser(t[k])
  }

  predicate HasOpener(t: string) { exists i :: 0 <= i < |t| && IsOpener(t[i]) }
  predicate HasCloser(t: string) { exists j :: 0 <= j < |t| && IsCloser(t[j]) }

  /** `Math.min(...[a, b].filter((idx) => idx >= 0))`, for one of them present. */
  function MinPresent(a: int, b: int): int
    requires a >= 0 || b >= 0
  {
    if a < 0 then b else if b < 0 then a else if a < b then a else b
  }

  /** `Math.max(...[a, b].filter((idx) => idx >= 0))`, for one of them present. */
  function MaxPresent(a: int, b: int): int
    requires a >= 0 || b >= 0
  {
    if a < 0 then b else if b < 0 then a else if a < b then b else a
  }

  /** What `trimmed.slice(start, end)` takes between a first opener at `i`
      and a last closer at `j`: nothing when the closer comes first. */
  function Between(t: string, i: int, j: int): (c: string)
    requires 0 <= i < |t| && 0 <= j < |t|
    ensures i <= j ==> c == t[i..j + 1]
    ensures i > j ==> c == []
  {
    Slice(t, i, j + 1)
  }

  function ExtractJsonCandidate(output: string, parses: string -> bool): (r: Result<string, RunnerError>)
    // whatever is returned is a piece of the trimmed text that is empty or parses
    ensures r.Ok? ==> IsInfix(r.value, Trim(output)) && (r.value == [] || parses(r.value))
    ensures r.Err? ==> r.error.JsonParseFailed?
  {
    ExtractFromTrimmed(Trim(output), parses)
  }

  /** `firstArray >= 0 || firstObject >= 0` in the source. */
  predicate OpenerIndexed(t: string) {
    IndexOf(t, '[') >= 0 || IndexOf(t, '{') >= 0
  }

  /** `lastArray >= 0 || lastObject >= 0` in the source. */
  predicate CloserIndexed(t: string) {
    LastIndexOf(t, ']') >= 0 || LastIndexOf(t, '}') >= 0
  }

  /** `start`: the smaller of the present opener indices. */
  function StartIndex(t: string): int
    requires OpenerIndexed(t)
  {
    MinPresent(IndexOf(t, '['), IndexOf(t, '{'))
  }

  /** `end - 1`: the larger of the present closer indices. */
  function EndIndex(t: string): int
    requires CloserIndexed(t)
  {
    MaxPresent(LastIndexOf(t, ']'), LastIndexOf(t, '}'))
  }

  /** The work of `extractJsonCandidate` after its `trim()`. */
  function ExtractFromTrimmed(trimmed: string, parses: string -> bool): (r: Result<string, RunnerError>)
    ensures r.Ok? ==> IsInfix(r.value, trimmed) && (r.value == [] || parses(r.value))
    ensures r.Err? ==> r.error.JsonParseFailed?
  {
    if trimmed == [] || parses(trimmed) then
      InfixOfItself(trimmed);
      Ok(trimmed)
    else if !OpenerIndexed(trimmed) || !CloserIndexed(trimmed) then Err(JsonParseFailed(trimmed))
    else
      var candidate := Slice(trimmed, StartIndex(trimmed), EndIndex(trimmed) + 1);
      CandidateInfix(trimmed);
      if parses(candidate) then Ok(candidate) else Err(JsonParseFailed(candidate))
  }

  /** The fallback slice is a piece of the trimmed text. */
  lemma CandidateInfix(t: string)
    requires OpenerIndexed(t) && CloserIndexed(t)
    ensures IsInfix(Slice(t, StartIndex(t), EndIndex(t) + 1), t)
  {
    var i, j := StartIndex(t), EndIndex(t);
    assert 0 <= i < |t| && 0 <= j < |t|;
    if i <= j {
      assert OccursAt(Slice(t, i, j + 1), t, i);
    } else {
      assert OccursAt(Slice(t, i, j + 1), t, 0);
    }
  }

  /** Direct path: text that is empty or parses after trimming comes back
      exactly as trimmed. */
  lemma ExtractDirect(output: string, parses: string -> bool)
    requires var t := Trim(output); t == [] || parses(t)
    ensures ExtractJsonCandidate(output, parses) == Ok(Trim(output))
  {
  }

  /** Without an opening or without a closing bracket, the failure of the
      first parse is re-thrown. */
  lemma ExtractWithoutBrackets(output: string, parses: string -> bool)
    requires var t := Trim(output); t != [] && !parses(t) && (!HasOpener(t) || !HasCloser(t))
    ensures ExtractJsonCandidate(output, parses) == Err(JsonParseFailed(Trim(output)))
  {
    var t := Trim(output);
    if IndexOf(t, '[') >= 0 || IndexOf(t, '{') >= 0 {
      FirstOpenerFound(t, IndexOf(t, '['), IndexOf(t, '{'));
      if LastIndexOf(t, ']') >= 0 || LastIndexOf(t, '}') >= 0 {
        LastCloserFound(t, LastIndexOf(t, ']'), LastIndexOf(t, '}'));
      }
    }
  }

  /** Fallback: the result is the slice from the first opening bracket to
      the last closing bracket, provided that slice parses; otherwise its
      parse failure is thrown. */
  lemma ExtractFallback(output: string, parses: string -> bool, i: int, j: int)
    requires var t := Trim(output); t != [] && !parses(t) && FirstOpenerAt(t, i) && LastCloserAt(t, j)
    ensures var c := Between(Trim(output), i, j);
      ExtractJsonCandidate(output, parses) == if parses(c) then Ok(c) else Err(JsonParseFailed(c))
  {
    FallbackFromTrimmed(Trim(output), parses, i, j);
  }

  lemma FallbackFromTrimmed(t: string, parses: string -> bool, i: int, j: int)
    requires t != [] && !parses(t) && FirstOpenerAt(t, i) && LastCloserAt(t, j)
    ensures var c := Between(t, i, j);
      ExtractFromTrimmed(t, parses) == if parses(c) then Ok(c) else Err(JsonParseFailed(c))
  {
    var a, b := IndexOf(t, '['), IndexOf(t, '{');
    var c, d := LastIndexOf(t, ']'), LastIndexOf(t, '}');
    assert OpenerIndexed(t) && StartIndex(t) == i by {
      FirstOpenerFound(t, a, b);
      OpenerUnique(t, i, MinPresent(a, b));
    }
    assert CloserIndexed(t) && EndIndex(t) == j by {
      LastCloserFound(t, c, d);
      CloserUnique(t, j, MaxPresent(c, d));
    }
    FallbackUnfolded(t, parses);
  }

  /** The fallback branch of `ExtractFromTrimmed`, written over its indices. */
  lemma FallbackUnfolded(t: string, parses: string -> bool)
    requires t != [] && !parses(t) && OpenerIndexed(t) && CloserIndexed(t)
    ensures var c := Slice(t, StartIndex(t), EndIndex(t) + 1);
      ExtractFromTrimmed(t, parses) == if parses(c) then Ok(c) else Err(JsonParseFailed(c))
  {
  }

  /** A JSON text between prose without opening brackets and prose without
      closing brackets is recovered exactly, as in
      "\nHere you go: [...] Thanks!\n", unless the whole trimmed answer
      already parses. */
  lemma EmbeddedJsonRecovered(before: string, json: string, after: string, parses: string -> bool)
    requires forall k :: 0 <= k < |before| ==> !IsOpener(before[k])
    requires forall k :: 0 <= k < |after| ==> !IsCloser(after[k])
    requires |json| >= 1 && IsOpener(json[0]) && IsCloser(json[|json| - 1])
    requires parses(json) && !parses(Trim(before + json + after))
    ensures ExtractJsonCandidate(before + json + after, parses) == Ok(json)
  {
    var lead, tail := TrimAround(before, json, after);
    assert forall k :: 0 <= k < |lead| ==> lead[k] == before[|before| - |lead| + k];
    EmbeddedInTrimmed(lead, json, tail, parses);
  }

  /** Trimming text around a piece that neither starts nor ends with
      whitespace only shortens the text before and after it. */
  lemma TrimAround(before: string, json: string, after: string) returns (lead: string, tail: string)
    requires |json| >= 1 && !IsWhitespace(json[0]) && !IsWhitespace(json[|json| - 1])
    ensures Trim(before + json + after) == lead + json + tail
    ensures IsSuffix(lead, before) && IsPrefix(tail, after)
  {
    var s := before + json + after;
    var a, b :| 0 <= a <= b <= |s| && Trim(s) == s[a..b] && IsBlank(s[..a]) && IsBlank(s[b..]);
    lead, tail := BlankCut(before, json, after, a, b);
  }

  /** Cutting blank text off both ends of `before + json + after` cuts into
      `before` and `after` only. */
  lemma BlankCut(before: string, json: string, after: string, a: nat, b: nat) returns (lead: string, tail: string)
    requires |json| >= 1 && !IsWhitespace(json[0]) && !IsWhitespace(json[|json| - 1])
    requires var s := before + json + after; a <= b <= |s| && IsBlank(s[..a]) && IsBlank(s[b..])
    ensures (before + json + after)[a..b] == lead + json + tail
    ensures IsSuffix(lead, before) && IsPrefix(tail, after)
  {
    var s := before + json + after;
    var n, m := |before|, |before| + |json|;
    assert forall i :: 0 <= i < a ==> IsWhitespace(s[i]) by {
      forall i | 0 <= i < a ensures IsWhitespace(s[i]) {
        assert IsBlank(s[..a]) && s[..a][i] == s[i];
      }
    }
    assert forall i :: b <= i < |s| ==> IsWhitespace(s[i]) by {
      forall i | b <= i < |s| ensures IsWhitespace(s[i]) {
        assert IsBlank(s[b..]) && s[b..][i - b] == s[i];
      }
    }
    assert s[n] == json[0] && s[m - 1] == json[|json| - 1];
    assert a <= n && b >= m;
    lead, tail := before[a..], after[..b - m];
    assert s[a..b] == s[a..n] + s[n..m] + s[m..b];
    assert s[a..n] == lead by {
      assert s[..n] == before;
      assert s[a..n] == s[..n][a..];
    }
    assert s[n..m] == json;
    assert s[m..b] == tail by {
      assert s[m..] == after;
      assert s[m..b] == s[m..][..b - m];
    }
  }

  lemma {:induction false} EmbeddedInTrimmed(before: string, json: string, after: string, parses: string -> bool)
    requires forall k :: 0 <= k < |before| ==> !IsOpener(before[k])
    requires forall k :: 0 <= k < |after| ==> !IsCloser(after[k])
    requires |json| >= 1 && IsOpener(json[0]) && IsCloser(json[|json| - 1])
    requires parses(json) && !parses(before + json + after)
    ensures ExtractFromTrimmed(before + json + after, parses) == Ok(json)
  {
    var t := before + json + after;
    var i, j := |before|, |before| + |json| - 1;
    assert FirstOpenerAt(t, i) by {
      assert t[i] == json[0];
      assert forall k :: 0 <= k < i ==> t[k] == before[k];
    }
    assert LastCloserAt(t, j) by {
      assert t[j] == json[|json| - 1];
      assert forall k :: j < k < |t| ==> t[k] == after[k - |before| - |json|];
    }
    assert Between(t, i, j) == json by {
      assert t[i..j + 1] == json;
    }
    FallbackFromTrimmed(t, parses, i, j);
  }

  /** There is only one first opener and one last closer. */
  lemma OpenerUnique(t: string, i: int, k: int)
    requires FirstOpenerAt(t, i) && FirstOpenerAt(t, k)
    ensures i == k
  {
  }

  lemma CloserUnique(t: string, j: int, k: int)
    requires LastCloserAt(t, j) && LastCloserAt(t, k)
    ensures j == k
  {
  }

  lemma FirstOpenerFound(t: string, firstArray: int, firstObject: int)
    requires firstArray == IndexOf(t, '[') && firstObject == IndexOf(t, '{')
    requires firstArray >= 0 || firstObject >= 0
    ensures FirstOpenerAt(t, MinPresent(firstArray, firstObject))
  {
  }

  lemma LastCloserFound(t: string, lastArray: int, lastObject: int)
    requires lastArray == LastIndexOf(t, ']') && lastObject == LastIndexOf(t, '}')
    requires lastArray >= 0 || lastObject >= 0
    ensures LastCloserAt(t, MaxPresent(lastArray, lastObject))
  {
  }
}
