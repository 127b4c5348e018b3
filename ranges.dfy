/**
 * `parse_range_header`: resolves an HTTP `Range` header against the size of
 * the file to `(start, end, status, is_partial)`. Only one range of the form
 * `bytes=<start>-<end>` is read, by splitting at the first '-'; either side
 * may be left blank. This is a subset of the byte-range syntax of section 2.1
 * of RFC 7233, and it differs from that section on suffix ranges.
 */
module Ranges {
  import opened Wrappers
  import opened Text

  /** The two exceptions: `ValueError` (a 400 response) and `IndexError` (416, section 4.4 of RFC 7233). */
  datatype RangeError = BadRequest | NotSatisfiable

  /** The tuple `(start, end, status, is_partial)`; `end` is inclusive. */
  datatype ByteRange = ByteRange(start: int, end: int, status: int, partial: bool)

  const RangeUnit: string := "bytes="

  /** `range_header and range_header.startswith("bytes=")`: the test is case-sensitive. */
  predicate HasRangeUnit(header: Option<string>): (b: bool)
    ensures b <==> header.Some? && RangeUnit <= header.value
  {
    header.Some? && |header.value| >= |RangeUnit| && header.value[..|RangeUnit|] == RangeUnit
  }

  /** The whole file, served with status 200. */
  function FullRange(fileSize: int): (r: ByteRange)
    ensures r.start == 0 && r.end - r.start + 1 == fileSize
    ensures r.status == 200 && !r.partial
  {
    ByteRange(0, fileSize - 1, 200, false)
  }

  /**
   * `if text.strip(): value = int(text)`: a field blank by `isspace()` leaves
   * the default in place, and any other field goes to `int()`.
   */
  function FieldOrDefault(text: string, default: int): (r: Option<int>)
    ensures IsBlank(text, StrSpaces) ==> r == Some(default)
    ensures !IsBlank(text, StrSpaces) ==> r == ParseInt(text)
  {
    if Strip(text, StrSpaces) != [] then ParseInt(text) else Some(default)
  }

  function ParseRange(header: Option<string>, fileSize: int): (r: Result<ByteRange, RangeError>)
    ensures !HasRangeUnit(header) ==> r == Success(FullRange(fileSize))
    ensures HasRangeUnit(header) && r.Success? ==>
              && r.value.status == 206 && r.value.partial
              && 0 <= r.value.start < fileSize
              && r.value.end <= fileSize - 1
    ensures r.Failure? ==> HasRangeUnit(header)
  {
    if !HasRangeUnit(header) then
      Success(FullRange(fileSize))
    else
      match SplitAtFirst(header.value[|RangeUnit|..], '-')
      case None => Failure(BadRequest)
      case Some((s, e)) =>
        ParseIntNonNegative(s);
        Resolve(FieldOrDefault(s, 0), FieldOrDefault(e, fileSize - 1), fileSize)
  }

  /**
   * Both fields read, the start is checked against the size of the file, the
   * end is clamped to its last byte, and the answer is partial content.
   */
  function Resolve(start: Option<int>, end: Option<int>, fileSize: int): (r: Result<ByteRange, RangeError>)
    requires start.Some? ==> start.value >= 0
    ensures start.None? || end.None? ==> r == Failure(BadRequest)
    ensures start.Some? && end.Some? ==> (r.Failure? <==> start.value >= fileSize)
    ensures r.Failure? ==> (r.error == NotSatisfiable <==> start.Some? && end.Some?)
    ensures r.Success? ==>
              && r.value.start == start.value && 0 <= r.value.start < fileSize
              && r.value.end == (if end.value < fileSize then end.value else fileSize - 1)
              && r.value.status == 206 && r.value.partial
  {
    match (start, end)
    case (Some(s), Some(e)) =>
      if s >= fileSize then Failure(NotSatisfiable)
      else Success(ByteRange(s, if e >= fileSize then fileSize - 1 else e, 206, true))
    case _ => Failure(BadRequest)
  }

  /** With the unit present, the fields are the text before and after the first '-'. */
  lemma RangeFields(s: string, e: string, fileSize: int)
    requires '-' !in s
    ensures FieldOrDefault(s, 0).Some? ==> FieldOrDefault(s, 0).value >= 0
    ensures ParseRange(Some(RangeUnit + s + "-" + e), fileSize)
            == Resolve(FieldOrDefault(s, 0), FieldOrDefault(e, fileSize - 1), fileSize)
  {
    var rest := s + "-" + e;
    assert RangeUnit + s + "-" + e == RangeUnit + rest;
    RangeUnitOf(rest);
    SplitAtFirstJoin(s, '-', e);
    ParseIntNonNegative(s);
  }

  /** The decimal spelling of a non-negative number is a non-blank field holding that number. */
  lemma DecimalField(n: nat, default: int)
    ensures '-' !in NatToString(n)
    ensures FieldOrDefault(NatToString(n), default) == Some(n)
  {
    var s := NatToString(n);
    ParseIntToString(n);
    assert !IsSpace(s[0]);
  }

  /** Same for any integer, a negative one spelled with a leading '-'. */
  lemma IntegerField(n: int, default: int)
    ensures FieldOrDefault(IntToString(n), default) == Some(n)
  {
    var s := IntToString(n);
    ParseIntToString(n);
    assert !IsSpace(s[0]);
  }

  /** A field left empty takes the default. */
  lemma BlankField(default: int)
    ensures FieldOrDefault("", default) == Some(default)
  {
    assert IsBlank("", StrSpaces);
  }

  /** With the start left blank, the start is 0 and the end is the text after the '-'. */
  lemma BlankStart(e: string, fileSize: int)
    ensures ParseRange(Some(RangeUnit + "-" + e), fileSize)
            == Resolve(Some(0), FieldOrDefault(e, fileSize - 1), fileSize)
  {
    var rest := "-" + e;
    assert RangeUnit + "-" + e == RangeUnit + rest;
    RangeUnitOf(rest);
    assert rest[0] == '-' && rest[1..] == e;
    BlankField(0);
  }

  lemma RangeUnitOf(rest: string)
    ensures HasRangeUnit(Some(RangeUnit + rest))
    ensures (RangeUnit + rest)[|RangeUnit|..] == rest
  {
    assert (RangeUnit + rest)[..|RangeUnit|] == RangeUnit;
  }

  /**
   * `bytes=<a>-<b>`: a start past the end is not satisfiable, otherwise the
   * range is partial with the end clamped to the last byte. Nothing checks
   * that `a <= b`, and a negative `b` passes through unchanged.
   */
  lemma {:induction false} RangeOfNumbers(a: nat, b: int, fileSize: int)
    ensures ParseRange(Some(RangeUnit + NatToString(a) + "-" + IntToString(b)), fileSize)
            == if a >= fileSize then Failure(NotSatisfiable)
               else Success(ByteRange(a, if b >= fileSize then fileSize - 1 else b, 206, true))
  {
    DecimalField(a, 0);
    IntegerField(b, fileSize - 1);
    RangeFields(NatToString(a), IntToString(b), fileSize);
  }

  /** `bytes=<a>-`: the range runs to the last byte of the file. */
  lemma {:induction false} RangeToEnd(a: nat, fileSize: int)
    ensures ParseRange(Some(RangeUnit + NatToString(a) + "-"), fileSize)
            == if a >= fileSize then Failure(NotSatisfiable)
               else Success(ByteRange(a, fileSize - 1, 206, true))
  {
    DecimalField(a, 0);
    BlankField(fileSize - 1);
    RangeFields(NatToString(a), "", fileSize);
    assert RangeUnit + NatToString(a) + "-" + "" == RangeUnit + NatToString(a) + "-";
  }

  /**
   * `bytes=-<n>` asks for the last `n` bytes in section 2.1 of RFC 7233, but
   * here the blank start reads as 0: the range is the first `n + 1` bytes.
   */
  lemma {:induction false} SuffixRangeReadsFromStart(n: nat, fileSize: int)
    ensures ParseRange(Some(RangeUnit + "-" + NatToString(n)), fileSize)
            == if fileSize <= 0 then Failure(NotSatisfiable)
               else Success(ByteRange(0, if n >= fileSize then fileSize - 1 else n, 206, true))
  {
    DecimalField(n, fileSize - 1);
    BlankStart(NatToString(n), fileSize);
  }

  /** Text after the unit with no '-' cannot be split into two fields: bad request. */
  lemma RangeWithoutDash(rest: string, fileSize: int)
    requires '-' !in rest
    ensures ParseRange(Some(RangeUnit + rest), fileSize) == Failure(BadRequest)
  {
    RangeUnitOf(rest);
  }

  /** A character `int()` cannot read. */
  predicate NotNumeric(c: char) {
    !IsSpace(c) && !IsDigit(c) && c != '+' && c != '-'
  }

  /** A field that `int()` cannot read is a bad request, whichever side it is on. */
  lemma RangeWithUnreadableField(s: string, e: string, fileSize: int)
    requires '-' !in s
    requires FieldOrDefault(s, 0).None? || FieldOrDefault(e, fileSize - 1).None?
    ensures ParseRange(Some(RangeUnit + s + "-" + e), fileSize) == Failure(BadRequest)
  {
    RangeFields(s, e, fileSize);
  }

  /** In particular, a field holding a character `int()` never accepts is a bad request. */
  lemma RangeWithMalformedField(s: string, e: string, fileSize: int)
    requires '-' !in s
    requires (exists i :: 0 <= i < |s| && NotNumeric(s[i])) || (exists i :: 0 <= i < |e| && NotNumeric(e[i]))
    ensures ParseRange(Some(RangeUnit + s + "-" + e), fileSize) == Failure(BadRequest)
  {
    if exists i :: 0 <= i < |s| && NotNumeric(s[i]) {
      var i :| 0 <= i < |s| && NotNumeric(s[i]);
      ParseIntRejects(s, i);
    } else {
      var i :| 0 <= i < |e| && NotNumeric(e[i]);
      ParseIntRejects(e, i);
    }
    RangeWithUnreadableField(s, e, fileSize);
  }

  /**
   * A separator in a field that is not blank is a bad request: `strip()`
   * counts it as whitespace, so the field goes to `int()`, which does not.
   */
  lemma RangeWithSeparator(s: string, e: string, fileSize: int)
    requires '-' !in s
    requires || (!IsBlank(s, StrSpaces) && exists i :: 0 <= i < |s| && IsSeparator(s[i]))
             || (!IsBlank(e, StrSpaces) && exists i :: 0 <= i < |e| && IsSeparator(e[i]))
    ensures ParseRange(Some(RangeUnit + s + "-" + e), fileSize) == Failure(BadRequest)
  {
    if !IsBlank(s, StrSpaces) && exists i :: 0 <= i < |s| && IsSeparator(s[i]) {
      var i :| 0 <= i < |s| && IsSeparator(s[i]);
      ParseIntRejects(s, i);
    } else {
      var i :| 0 <= i < |e| && IsSeparator(e[i]);
      ParseIntRejects(e, i);
    }
    RangeWithUnreadableField(s, e, fileSize);
  }

  /** Only the lower-case unit is recognised: `Bytes=...` is served as the whole file. */
  lemma RangeUnitIsCaseSensitive(rest: string, fileSize: int)
    ensures ParseRange(Some("Bytes=" + rest), fileSize) == Success(FullRange(fileSize))
  {
    assert ("Bytes=" + rest)[0] == 'B';
  }

  /** Worked examples for a file of 1000 bytes: no header, and a plain range. */
  lemma ThousandBytePlainRange(header: string, fileSize: int)
    requires header == "bytes=0-499" && fileSize == 1000
    ensures ParseRange(None, fileSize) == Success(ByteRange(0, 999, 200, false))
    ensures ParseRange(Some(header), fileSize) == Success(ByteRange(0, 499, 206, true))
  {
    assert NatToString(4) == "4" && NatToString(49) == "49" && NatToString(499) == "499";
    assert "bytes=" + "0" + "-" + "499" == header;
    RangeOfNumbers(0, 499, fileSize);
  }

  /** An end past the file is clamped to its last byte. */
  lemma ThousandByteClampedEnd(header: string, fileSize: int)
    requires header == "bytes=0-2000" && fileSize == 1000
    ensures ParseRange(Some(header), fileSize) == Success(ByteRange(0, 999, 206, true))
  {
    assert NatToString(2) == "2" && NatToString(20) == "20" && NatToString(200) == "200";
    assert NatToString(2000) == "2000";
    assert "bytes=" + "0" + "-" + "2000" == header;
    RangeOfNumbers(0, 2000, fileSize);
  }

  /** An open range from the last byte is satisfiable. */
  lemma ThousandByteLastByte(header: string, fileSize: int)
    requires header == "bytes=999-" && fileSize == 1000
    ensures ParseRange(Some(header), fileSize) == Success(ByteRange(999, 999, 206, true))
  {
    assert NatToString(9) == "9" && NatToString(99) == "99" && NatToString(999) == "999";
    assert "bytes=" + "999" + "-" == header;
    RangeToEnd(999, fileSize);
  }

  /** An open range from the size of the file is not satisfiable. */
  lemma ThousandBytePastEnd(header: string, fileSize: int)
    requires header == "bytes=1000-" && fileSize == 1000
    ensures ParseRange(Some(header), fileSize) == Failure(NotSatisfiable)
  {
    assert NatToString(1) == "1" && NatToString(10) == "10" && NatToString(100) == "100";
    assert NatToString(1000) == "1000";
    assert "bytes=" + "1000" + "-" == header;
    RangeToEnd(1000, fileSize);
  }

  /** Quirk: an inverted range is accepted as it is. */
  lemma ThousandByteInvertedRange(header: string, fileSize: int)
    requires header == "bytes=500-100" && fileSize == 1000
    ensures ParseRange(Some(header), fileSize) == Success(ByteRange(500, 100, 206, true))
  {
    assert NatToString(5) == "5" && NatToString(50) == "50" && NatToString(500) == "500";
    assert NatToString(1) == "1" && NatToString(10) == "10" && NatToString(100) == "100";
    assert "bytes=" + "500" + "-" + "100" == header;
    RangeOfNumbers(500, 100, fileSize);
  }

  /** Quirk: a negative end passes through. */
  lemma ThousandByteNegativeEnd(header: string, fileSize: int)
    requires header == "bytes=0--5" && fileSize == 1000
    ensures ParseRange(Some(header), fileSize) == Success(ByteRange(0, -5, 206, true))
  {
    assert IntToString(-5) == "-5";
    assert "bytes=" + "0" + "-" + "-5" == header;
    RangeOfNumbers(0, -5, fileSize);
  }

  /** A separator next to the digits makes `int()` fail: a bad request. */
  lemma ThousandByteSeparatorInStart(header: string, fileSize: int)
    requires header == "bytes=\U{1c}5-" && fileSize == 1000
    ensures ParseRange(Some(header), fileSize) == Failure(BadRequest)
  {
    assert "bytes=" + "\U{1c}5" + "-" + "" == header;
    assert !IsSpace("\U{1c}5"[1]) && IsSeparator("\U{1c}5"[0]);
    RangeWithSeparator("\U{1c}5", "", fileSize);
  }

  /** A field of separators alone is blank to `strip()`, so it keeps the default start. */
  lemma ThousandByteSeparatorOnlyStart(header: string, fileSize: int)
    requires header == "bytes=\U{1c}-5" && fileSize == 1000
    ensures ParseRange(Some(header), fileSize) == Success(ByteRange(0, 5, 206, true))
  {
    assert "bytes=" + "\U{1c}" + "-" + "5" == header;
    assert IsBlank("\U{1c}", StrSpaces);
    assert NatToString(5) == "5";
    DecimalField(5, fileSize - 1);
    RangeFields("\U{1c}", "5", fileSize);
  }

  /** Quirk: the suffix range meant as the last 500 bytes is read as bytes 0 to 500. */
  lemma ThousandByteSuffixRange(header: string, fileSize: int)
    requires header == "bytes=-500" && fileSize == 1000
    ensures ParseRange(Some(header), fileSize) == Success(ByteRange(0, 500, 206, true))
  {
    assert NatToString(5) == "5" && NatToString(50) == "50" && NatToString(500) == "500";
    assert "bytes=" + "-" + "500" == header;
    SuffixRangeReadsFromStart(500, fileSize);
  }
}
