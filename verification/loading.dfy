/** `preprocess_file`, `validate_json_entry` and the validation and
    error-context logic of `load_json_safely` in
    Preprocessor/data_preprocessor.py. Reading the file, the debug copies and
    the printed messages are left out; `json.loads` is a parameter. */
module Loading {
  import opened Results
  import opened Strings
  import opened Spans
  import opened JsonRepair
  import opened JsonValues

  /** How `json.loads` ended: a value, or a `JSONDecodeError` at a character
      position. */
  datatype ParseOutcome = Parsed(value: Json) | DecodeError(pos: nat, msg: string)

  /** What `load_json_safely` re-raises. */
  datatype LoadError =
    | JsonDecodeFailure(pos: nat, msg: string, report: ErrorReport)
    | NoValidEntries      // the ValueError of an empty filter result
    | NotIterable         // a parsed number, boolean or null cannot be enumerated

  /** The text printed around a decode error: the context window and the
      column of the caret under it. */
  datatype ErrorReport = ErrorReport(context: string, caret: nat)

  /** Half the width of the error-context window. */
  const Radius: nat := 200

  /** `validate_json_entry`: an object with a `question` key and an `answers`
      key whose value is a list. */
  function ValidateJsonEntry(entry: Json): (r: bool)
    ensures r <==> entry.JObject? && "question" in entry.fields
                   && "answers" in entry.fields && entry.fields["answers"].JArray?
  {
    if !entry.JObject? then false
    else if "question" !in entry.fields then false
    else if "answers" !in entry.fields || !entry.fields["answers"].JArray? then false
    else true
  }

  /** The entries the validation loop keeps, in order. */
  function FilterValid(data: seq<Json>): seq<Json>
    decreases |data|
  {
    if |data| == 0 then []
    else
      var rest := FilterValid(data[1..]);
      if ValidateJsonEntry(data[0]) then [data[0]] + rest else rest
  }

  /** The validation loop of `load_json_safely`: it keeps the valid entries in
      their original order and records the index of every entry it skips. */
  method ValidateEntries(data: seq<Json>) returns (kept: seq<Json>, skipped: seq<nat>)
    ensures kept == FilterValid(data)
    ensures |kept| + |skipped| == |data|
    ensures forall k :: 0 <= k < |skipped| ==> skipped[k] < |data| && !ValidateJsonEntry(data[skipped[k]])
    ensures forall k, l :: 0 <= k < l < |skipped| ==> skipped[k] < skipped[l]
  {
    kept := [];
    skipped := [];
    var i := 0;
    while i < |data|
      invariant 0 <= i <= |data|
      invariant kept == FilterValid(data[..i])
      invariant |kept| + |skipped| == i
      invariant forall k :: 0 <= k < |skipped| ==> skipped[k] < i && !ValidateJsonEntry(data[skipped[k]])
      invariant forall k, l :: 0 <= k < l < |skipped| ==> skipped[k] < skipped[l]
    {
      assert FilterValid(data[..i + 1])
             == kept + (if ValidateJsonEntry(data[i]) then [data[i]] else []) by {
        FilterValidAppend(data[..i], [data[i]]);
        assert data[..i + 1] == data[..i] + [data[i]];
        assert data[i..i + 1] == [data[i]];
        assert FilterValid([data[i]]) == if ValidateJsonEntry(data[i]) then [data[i]] else [] by {
          assert [data[i]][1..] == [];
        }
      }
      if ValidateJsonEntry(data[i]) {
        kept := kept + [data[i]];
      } else {
        skipped := skipped + [i];
      }
      i := i + 1;
    }
    assert data[..i] == data;
  }

  /** The error context of `load_json_safely`:
      `content[max(0, pos - 200) : min(len(content), pos + 200)]`, and the
      caret column `min(200, pos - start)`. The window holds at most 400
      characters, is the slice of `content` that starts `caret` characters
      before `pos`, and the caret sits under the character at `pos`. */
  function ErrorContext(content: string, pos: nat): (r: ErrorReport)
    ensures |r.context| <= 2 * Radius
    ensures r.caret <= Radius
    ensures pos <= |content| ==>
              && r.caret <= pos
              && pos - r.caret + |r.context| <= |content|
              && r.context == content[pos - r.caret .. pos - r.caret + |r.context|]
    ensures pos < |content| ==> r.caret < |r.context| && r.context[r.caret] == content[pos]
    ensures r.caret == if pos >= Radius then Radius else pos
    ensures pos <= |content| ==>
              |r.context| == r.caret + (if pos + Radius <= |content| then Radius else |content| - pos)
    ensures |content| < pos ==>
              r.context == if pos - r.caret <= |content| then content[pos - r.caret..] else []
  {
    var start := if pos >= Radius then pos - Radius else 0;
    var end := if pos + Radius <= |content| then pos + Radius else |content|;
    var context := if start <= end then content[start..end] else [];
    var caret := if Radius <= pos - start then Radius else pos - start;
    ErrorReport(context, caret)
  }

  /** `preprocess_file` on the text of the file: escape the code blocks, then
      repair the JSON structure. */
  function PreprocessFile(content: string): string {
    FixJsonStructure(ProcessCodeBlocks(content))
  }

  /** The text handed to `json.loads` is bracketed. */
  lemma PreprocessFileBracketed(content: string)
    ensures Bracketed(PreprocessFile(content))
  {
    var x := ProcessCodeBlocks(content);
    FixJsonStructureBracketed(x);
    assert PreprocessFile(content) == FixJsonStructure(x);
  }

  /** The entries `for i, entry in enumerate(data)` visits: the items of a
      list; none that can be valid for an object (its keys) or a string (its
      characters); a number, boolean or null is not iterable. */
  function Enumerate(v: Json): Option<seq<Json>> {
    match v
    case JArray(items) => Some(items)
    case JObject(_) => Some([])
    case JString(_) => Some([])
    case _ => None
  }

  /** The `try` block of `load_json_safely` after preprocessing, on the
      preprocessed `text`, with `parse` for `json.loads`. A decode error is
      reported with the context around its position; otherwise the valid
      entries are returned in order, and an empty result is an error. */
  function ParseAndValidate(text: string, parse: string -> ParseOutcome): (r: Result<seq<Json>, LoadError>)
    ensures parse(text).DecodeError? ==>
              r == Failure(JsonDecodeFailure(parse(text).pos, parse(text).msg,
                                             ErrorContext(text, parse(text).pos)))
    ensures r.Success? <==> parse(text).Parsed? && parse(text).value.JArray?
                            && exists e :: e in parse(text).value.items && ValidateJsonEntry(e)
    ensures r.Success? ==> r.value == FilterValid(parse(text).value.items)
  {
    match parse(text)
    case DecodeError(pos, msg) => Failure(JsonDecodeFailure(pos, msg, ErrorContext(text, pos)))
    case Parsed(v) =>
      match Enumerate(v)
      case None => Failure(NotIterable)
      case Some(entries) =>
        var valid := FilterValid(entries);
        FilterValidMembers(entries);
        if |valid| == 0 then
          assert forall e :: e in entries ==> !ValidateJsonEntry(e) by {
            forall e | e in entries
              ensures !ValidateJsonEntry(e)
            {
              assert ValidateJsonEntry(e) ==> e in valid;
            }
          }
          Failure(NoValidEntries)
        else
          assert v.JArray? by {
            assert entries != [];
          }
          assert valid[0] in valid;
          Success(valid)
  }

  /** `load_json_safely` on the text of the file. */
  function LoadJsonSafely(content: string, parse: string -> ParseOutcome): Result<seq<Json>, LoadError> {
    ParseAndValidate(PreprocessFile(content), parse)
  }

  // ---------------------------------------------------------------------
  // Lemmas

  /** The kept entries are exactly the valid entries of the input. */
  lemma {:induction false} FilterValidMembers(data: seq<Json>)
    ensures |FilterValid(data)| <= |data|
    ensures forall e :: e in FilterValid(data) <==> e in data && ValidateJsonEntry(e)
    decreases |data|
  {
    if |data| > 0 {
      FilterValidMembers(data[1..]);
      assert forall e :: e in data <==> e == data[0] || e in data[1..];
    }
  }

  /** Filtering distributes over concatenation, so the kept entries keep their
      relative order. */
  lemma {:induction false} FilterValidAppend(a: seq<Json>, b: seq<Json>)
    ensures FilterValid(a + b) == FilterValid(a) + FilterValid(b)
    decreases |a|
  {
    if |a| == 0 {
      assert a + b == b;
    } else {
      assert (a + b)[0] == a[0];
      assert (a + b)[1..] == a[1..] + b;
      FilterValidAppend(a[1..], b);
    }
  }

  /** Filtering keeps a list of valid entries whole and is idempotent. */
  lemma {:induction false} FilterValidIdempotent(data: seq<Json>)
    ensures FilterValid(FilterValid(data)) == FilterValid(data)
    ensures (forall i :: 0 <= i < |data| ==> ValidateJsonEntry(data[i])) ==> FilterValid(data) == data
    decreases |data|
  {
    if |data| > 0 {
      FilterValidIdempotent(data[1..]);
      var rest := FilterValid(data[1..]);
      if ValidateJsonEntry(data[0]) {
        assert ([data[0]] + rest)[1..] == rest;
      }
      assert (forall i :: 0 <= i < |data| ==> ValidateJsonEntry(data[i]))
               ==> (forall i :: 0 <= i < |data[1..]| ==> ValidateJsonEntry(data[1..][i]));
    }
  }
}
