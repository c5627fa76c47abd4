/** Which responses to a download request may be used, and how. */
module RangeResponse {
  import opened Content
  import opened Text
  import opened Transfer
  import opened Wrappers

  datatype BodyDisposition =
    | Fresh(expectedBodyBytes: U64)
    | Resume(offset: U64, expectedBodyBytes: U64)
    | Restart(expectedBodyBytes: U64)

  datatype ContentRange = ContentRange(start: U64, end: U64, total: U64)

  // ----- the header grammar

  predicate IsDecimal(text: string, n: nat) {
    text != [] && AllDigits(text) && DecimalValue(text) == n
  }

  predicate Spells(text: string, start: string, end: string, total: string, range: ContentRange) {
    && text == "bytes " + start + "-" + end + "/" + total
    && IsDecimal(start, range.start) && IsDecimal(end, range.end) && IsDecimal(total, range.total)
  }

  /** A byte content range, by section 14.4 of RFC 9110. */
  ghost predicate IsContentRange(text: string, range: ContentRange) {
    exists start, end, total :: Spells(text, start, end, total, range)
  }

  ghost predicate LengthAgrees(contentLength: Option<string>, expected: nat) {
    contentLength.Some? ==> IsDecimal(contentLength.value, expected)
  }

  // ----- the parsers

  function ParseDecimal(value: string): Result<U64, OperationError> {
    if value == [] || !AllDigits(value) then Failure(Protocol)
    else if DecimalValue(value) >= U64_LIMIT then Failure(Protocol)
    else Success(DecimalValue(value))
  }

  function SplitOnce(s: string, ch: char): Result<(string, string), OperationError> {
    var at := Find(s, ch, 0);
    if at.None? then Failure(Protocol) else Success((s[..at.value], s[at.value + 1..]))
  }

  function ParseContentRange(value: string): Result<ContentRange, OperationError> {
    if !("bytes " <= value) then Failure(Protocol)
    else
      var (bounds, total) :- SplitOnce(value[6..], '/');
      var (start, end) :- SplitOnce(bounds, '-');
      var s :- ParseDecimal(start);
      var e :- ParseDecimal(end);
      var t :- ParseDecimal(total);
      if s > e || e >= t then Failure(Protocol) else Success(ContentRange(s, e, t))
  }

  function RequireMatchingLength(actual: Option<U64>, expected: U64): Result<(), OperationError> {
    if actual.Some? && actual.value != expected then Failure(Protocol) else Success(())
  }

  function ValidateFileResponse(
    status: nat, contentLength: Option<string>, contentRange: Option<string>,
    requestedOffset: Option<U64>, expectedSize: U64)
    : Result<BodyDisposition, OperationError>
  {
    var length: Option<U64> :- if contentLength.None? then Success(None)
                               else var n :- ParseDecimal(contentLength.value); Success(Some(n));
    if requestedOffset.None? then
      if status != 200 || contentRange.Some? then Failure(Protocol)
      else
        var _ :- RequireMatchingLength(length, expectedSize);
        Success(Fresh(expectedSize))
    else
      var offset := requestedOffset.value;
      if offset == 0 || offset >= expectedSize then Failure(Protocol)
      else if status == 200 then
        if contentRange.Some? then Failure(Protocol)
        else
          var _ :- RequireMatchingLength(length, expectedSize);
          Success(Restart(expectedSize))
      else if status == 206 then
        if contentRange.None? then Failure(Protocol)
        else
          var range :- ParseContentRange(contentRange.value);
          var expectedBodyBytes := expectedSize - offset;
          if range.start != offset || range.end != expectedSize - 1 || range.total != expectedSize then
            Failure(Protocol)
          else
            var _ :- RequireMatchingLength(length, expectedBodyBytes);
            Success(Resume(offset, expectedBodyBytes))
      else Failure(Protocol)
  }

  // ----- the parsers accept exactly the grammar

  /** Splitting undoes joining when the left part is free of the separator. */
  lemma SplitJoined(left: string, ch: char, right: string)
    requires ch !in left
    ensures SplitOnce(left + [ch] + right, ch) == Success((left, right))
  {
    FindAfter(left, ch, right, 0);
    assert (left + [ch] + right)[..|left|] == left && (left + [ch] + right)[|left| + 1..] == right;
  }

  lemma {:induction false} FindAfter(left: string, ch: char, right: string, from: nat)
    requires ch !in left && from <= |left|
    ensures Find(left + [ch] + right, ch, from) == Some(|left|)
    decreases |left| - from
  {
    if from < |left| {
      FindAfter(left, ch, right, from + 1);
    }
  }

  lemma SplitJoins(s: string, ch: char)
    requires SplitOnce(s, ch).Success?
    ensures s == SplitOnce(s, ch).value.0 + [ch] + SplitOnce(s, ch).value.1
  {
  }

  /** The parser accepts a text with three numbers exactly when the grammar does and
      the numbers are in order. */
  lemma ContentRangeExact(text: string, range: ContentRange)
    ensures ParseContentRange(text) == Success(range) <==>
            IsContentRange(text, range) && range.start <= range.end < range.total
  {
    if ParseContentRange(text) == Success(range) {
      ParsedIsSpelled(text, range);
    }
    if IsContentRange(text, range) {
      var start, end, total :| Spells(text, start, end, total, range);
      SpelledIsParsed(text, start, end, total, range);
    }
  }

  lemma SpelledIsParsed(text: string, start: string, end: string, total: string, range: ContentRange)
    requires Spells(text, start, end, total, range)
    ensures ParseContentRange(text) == Success(range) <==> range.start <= range.end < range.total
  {
    RangeText(text, start, end, total);
  }

  lemma ParsedIsSpelled(text: string, range: ContentRange)
    requires ParseContentRange(text) == Success(range)
    ensures IsContentRange(text, range)
  {
    var value := text[6..];
    SplitJoins(value, '/');
    var (bounds, total) := SplitOnce(value, '/').value;
    SplitJoins(bounds, '-');
    var (start, end) := SplitOnce(bounds, '-').value;
    assert text == "bytes " + value;
    Reassociate("bytes ", start, end, total);
    assert Spells(text, start, end, total, range);
  }

  lemma Reassociate(prefix: string, start: string, end: string, total: string)
    ensures prefix + (start + "-" + end + "/" + total) == prefix + start + "-" + end + "/" + total
  {
  }

  lemma RangeText(text: string, start: string, end: string, total: string)
    requires text == "bytes " + start + "-" + end + "/" + total
    requires AllDigits(start) && AllDigits(end)
    ensures "bytes " <= text
    ensures SplitOnce(text[6..], '/') == Success((start + "-" + end, total))
    ensures SplitOnce(start + "-" + end, '-') == Success((start, end))
  {
    var bounds := start + "-" + end;
    Reassociate("bytes ", start, end, total);
    assert text[6..] == bounds + "/" + total;
    assert '-' !in start && '/' !in bounds;
    SplitJoined(bounds, '/', total);
    SplitJoined(start, '-', end);
  }

  /** Every use of a response, with exactly the responses that allow it. */
  lemma DispositionExact(
    status: nat, contentLength: Option<string>, contentRange: Option<string>,
    requested: Option<U64>, size: U64, disposition: BodyDisposition)
    ensures ValidateFileResponse(status, contentLength, contentRange, requested, size) == Success(disposition) <==>
            match disposition
            case Fresh(body) =>
              && body == size && requested.None? && status == 200 && contentRange.None?
              && LengthAgrees(contentLength, size)
            case Restart(body) =>
              && body == size && requested.Some? && 0 < requested.value < size && status == 200
              && contentRange.None? && LengthAgrees(contentLength, size)
            case Resume(offset, body) =>
              && requested == Some(offset) && 0 < offset && offset + body == size && 0 < body && status == 206
              && contentRange.Some? && IsContentRange(contentRange.value, ContentRange(offset, size - 1, size))
              && LengthAgrees(contentLength, body)
  {
    if contentRange.Some? && requested.Some? && 0 < requested.value < size {
      ContentRangeExact(contentRange.value, ContentRange(requested.value, size - 1, size));
    }
  }

  /** The range a well-behaved server writes for a request is accepted as a resume. */
  lemma HonestRangeResumes(offset: U64, size: U64)
    requires 0 < offset < size
    ensures ValidateFileResponse(
              206, Some(Show(size - offset)),
              Some("bytes " + Show(offset) + "-" + Show(size - 1) + "/" + Show(size)), Some(offset), size)
            == Success(Resume(offset, size - offset))
  {
    ShowThenRead(offset);
    ShowThenRead(size - 1);
    ShowThenRead(size);
    ShowThenRead(size - offset);
    assert Spells("bytes " + Show(offset) + "-" + Show(size - 1) + "/" + Show(size),
                  Show(offset), Show(size - 1), Show(size), ContentRange(offset, size - 1, size));
    DispositionExact(206, Some(Show(size - offset)),
      Some("bytes " + Show(offset) + "-" + Show(size - 1) + "/" + Show(size)), Some(offset), size,
      Resume(offset, size - offset));
  }
}
