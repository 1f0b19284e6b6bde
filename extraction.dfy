/** The response extractor: locating the JSON object in a model completion
    by the first `{` and the last `}` of the stripped text, and handing that
    candidate to the JSON parser. */
module Extraction {
  import opened Wrappers
  import opened PyStr
  import opened Json

  /** What one call of the model produced: its completion text, or the
      message of the exception it raised. */
  datatype Generation = Completion(text: string) | Raised(message: string)

  /** `s` contains neither `{` nor `}`. */
  predicate BraceFree(s: string) {
    forall i :: 0 <= i < |s| ==> s[i] != '{' && s[i] != '}'
  }

  /** Some `{` of `s` is followed, later in `s`, by some `}`. */
  ghost predicate HasBracePair(s: string) {
    exists i, j :: 0 <= i < j < |s| && s[i] == '{' && s[j] == '}'
  }

  /** `c` occurs in `s` at offset `k`, with no `{` before it and no `}` after
      it. */
  ghost predicate OuterAt(s: string, k: int, c: string) {
    && 0 <= k && k + |c| <= |s|
    && s[k..k + |c|] == c
    && (forall i :: 0 <= i < k ==> s[i] != '{')
    && (forall j :: k + |c| <= j < |s| ==> s[j] != '}')
  }

  /** The JSON candidate of `s`, described without `find` or `rfind`: a piece
      of `s` that opens with `{`, closes with `}`, has no `{` before it and no
      `}` after it. */
  ghost predicate IsOuterCandidate(s: string, c: string) {
    && |c| >= 2 && c[0] == '{' && c[|c| - 1] == '}'
    && exists k :: OuterAt(s, k, c)
  }

  /** The candidate slice `text[start:end+1]`, where `start = text.find('{')`
      and `end = text.rfind('}')`, taken only when both exist and
      `end > start`. */
  function ExtractCandidate(text: string): (r: Option<string>)
    ensures r.Some? <==> HasBracePair(text)
    ensures r.Some? ==> IsOuterCandidate(text, r.value)
  {
    var start := Find(text, '{');
    var end := RFind(text, '}');
    if start != -1 && end != -1 && end > start then
      var c := text[start..end + 1];
      assert OuterAt(text, start, c);
      Some(c)
    else
      None
  }

  /** The candidate is determined by its description: whatever piece of `s`
      satisfies it is exactly what extraction returns. */
  lemma CandidateComplete(s: string, c: string)
    requires IsOuterCandidate(s, c)
    ensures ExtractCandidate(s) == Some(c)
  {
    var k :| OuterAt(s, k, c);
    var last := k + |c| - 1;
    assert s[k] == c[0] && s[last] == c[|c| - 1];
    var start, end := Find(s, '{'), RFind(s, '}');
    assert start == k && end == last;
  }

  /** Text without braces around the completion never changes the
      candidate: neither whether one is found nor what it is. */
  lemma BraceFreePadding(p: string, t: string, q: string)
    requires BraceFree(p) && BraceFree(q)
    ensures ExtractCandidate(p + t + q) == ExtractCandidate(t)
  {
    var s := p + t + q;
    match ExtractCandidate(t)
    case Some(c) =>
      var k :| OuterAt(t, k, c);
      assert s[|p| + k..|p| + k + |c|] == t[k..k + |c|];
      assert OuterAt(s, |p| + k, c);
      CandidateComplete(s, c);
    case None =>
      forall i, j | 0 <= i < j < |s| && s[i] == '{'
        ensures s[j] != '}'
      {
        assert |p| <= i;
        assert j < |p| + |t| ==> t[i - |p|] == '{' && t[j - |p|] == s[j];
      }
  }

  /** Stripping the completion does not change its candidate: `strip()`
      removes only whitespace, which holds no brace. */
  lemma StripKeepsCandidate(s: string)
    ensures ExtractCandidate(Strip(s)) == ExtractCandidate(s)
  {
    var p, q := StripSplit(s);
    assert !IsSpace('{') && !IsSpace('}');
    assert BraceFree(p) && BraceFree(q);
    BraceFreePadding(p, Strip(s), q);
  }

  /** The outcome of the generation and extraction steps of a
      classification request: `response_text` if it was ever assigned, and
      the parsed object if `json.loads` succeeded on the candidate. */
  datatype Analysis = Analysis(responseText: Option<string>, parsed: Option<Json>)

  /** The text of the completion as the handler holds it after the call:
      stripped, or absent when the call raised. */
  function ResponseText(gen: Generation): Option<string> {
    if gen.Completion? then Some(Strip(gen.text)) else None
  }

  /** Strip the completion, extract the candidate, parse it. `parse` stands
      for `json.loads`, `None` for a `JSONDecodeError`. */
  function Analyze(gen: Generation, parse: string -> Option<Json>): (a: Analysis)
    ensures a.responseText == ResponseText(gen)
    ensures gen.Raised? ==> a.parsed == None
    ensures gen.Completion? && !HasBracePair(gen.text) ==> a.parsed == None
    ensures forall c :: gen.Completion? && IsOuterCandidate(gen.text, c) ==> a.parsed == parse(c)
  {
    match gen
    case Raised(_) => Analysis(None, None)
    case Completion(raw) =>
      var text := Strip(raw);
      StripKeepsCandidate(raw);
      assert forall c :: IsOuterCandidate(raw, c) ==> ExtractCandidate(raw) == Some(c) by {
        forall c | IsOuterCandidate(raw, c) ensures ExtractCandidate(raw) == Some(c) {
          CandidateComplete(raw, c);
        }
      }
      match ExtractCandidate(text)
      case None => Analysis(Some(text), None)
      case Some(candidate) => Analysis(Some(text), parse(candidate))
  }

  /** `j` is what a classification request obtains from `gen`: the
      completion's JSON candidate, described without `find` or `rfind`,
      parses to `j`. */
  ghost predicate ParsesTo(gen: Generation, parse: string -> Option<Json>, j: Json) {
    gen.Completion? && exists c :: IsOuterCandidate(gen.text, c) && parse(c) == Some(j)
  }

  /** Some value is obtained from `gen`. */
  ghost predicate Succeeds(gen: Generation, parse: string -> Option<Json>) {
    exists j :: ParsesTo(gen, parse, j)
  }

  /** The analysis yields exactly the values its description admits, and
      at most one. */
  lemma AnalyzeParsed(gen: Generation, parse: string -> Option<Json>)
    ensures forall j :: Analyze(gen, parse).parsed == Some(j) <==> ParsesTo(gen, parse, j)
    ensures Analyze(gen, parse).parsed.Some? <==> Succeeds(gen, parse)
  {
    var a := Analyze(gen, parse);
    if gen.Completion? {
      var text := gen.text;
      forall c | IsOuterCandidate(text, c) ensures a.parsed == parse(c) {
        CandidateComplete(text, c);
      }
      if a.parsed.Some? {
        var c := ExtractCandidate(Strip(text)).value;
        StripKeepsCandidate(text);
        assert ParsesTo(gen, parse, a.parsed.value) by {
          assert IsOuterCandidate(text, c);
        }
      }
    }
  }

  /** A JSON object text with brace-free commentary before and after it is
      parsed exactly as the object text alone. */
  lemma AnalyzeNoisyObject(p: string, obj: string, q: string, parse: string -> Option<Json>)
    requires BraceFree(p) && BraceFree(q)
    requires |obj| >= 2 && obj[0] == '{' && obj[|obj| - 1] == '}'
    ensures Analyze(Completion(p + obj + q), parse).parsed == parse(obj)
  {
    var s := p + obj + q;
    assert s[|p|..|p| + |obj|] == obj;
    assert OuterAt(s, |p|, obj);
  }
}
