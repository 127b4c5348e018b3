/**
 * `build_stream_headers`: the response headers for streaming a file, whole
 * or one byte range of it. The client-side parsers here are the partners the
 * headers are checked against: what a client reading them recovers.
 */
module StreamHeaders {
  import opened Wrappers
  import opened Text
  import Percent
  import opened Ranges

  /** `f"bytes {start}-{end}/{file_size}"`, the form of section 4.2 of RFC 7233. */
  function ContentRangeValue(start: int, end: int, fileSize: int): (r: string)
    ensures |r| > 6 && r[..6] == "bytes "
    ensures forall i :: 6 <= i < |r| ==> IsDigit(r[i]) || r[i] == '-' || r[i] == '/'
  {
    "bytes " + IntToString(start) + "-" + IntToString(end) + "/" + IntToString(fileSize)
  }

  const DispositionPrefix: string := "inline; filename=\""

  /** `f'inline; filename="{quote(filename)}"'` */
  function Disposition(filename: string): (r: string)
    ensures |r| > |DispositionPrefix| && r[..|DispositionPrefix|] == DispositionPrefix
    ensures r[|r| - 1] == '"' && '"' !in r[|DispositionPrefix|..|r| - 1]
  {
    DispositionPrefix + Percent.Quote(filename) + "\""
  }

  /** `1*DIGIT` read as a number. */
  function ParseDigits(s: string): (r: Option<nat>)
    ensures r.Some? ==> s != [] && AllDigits(s)
  {
    if s != [] && AllDigits(s) then Some(DigitsValue(s)) else None
  }

  /**
   * A client's reading of `Content-Range: bytes <first>-<last>/<length>`
   * (section 4.2 of RFC 7233), which calls the value invalid unless
   * `first <= last < length`.
   */
  function ParseContentRange(v: string): (r: Option<(nat, nat, nat)>)
    ensures r.Some? ==> r.value.0 <= r.value.1 < r.value.2
  {
    if |v| < 6 || v[..6] != "bytes " then None
    else match SplitAtFirst(v[6..], '-')
      case None => None
      case Some((first, rest)) =>
        match SplitAtFirst(rest, '/')
        case None => None
        case Some((last, complete)) =>
          match (ParseDigits(first), ParseDigits(last), ParseDigits(complete))
          case (Some(a), Some(b), Some(n)) => if a <= b < n then Some((a, b, n)) else None
          case _ => None
  }

  /** A client's reading of the file name: between the quotes, percent-decoded, then UTF-8-decoded. */
  function DispositionFilename(v: string): Option<string> {
    var n := |DispositionPrefix|;
    if |v| < n + 1 || v[..n] != DispositionPrefix || v[|v| - 1] != '"' then None
    else match Percent.PercentDecode(v[n..|v| - 1])
      case None => None
      case Some(bytes) => Percent.Utf8Decode(bytes)
  }

  lemma DigitsOfNat(n: nat)
    ensures ParseDigits(NatToString(n)) == Some(n)
    ensures '-' !in NatToString(n) && '/' !in NatToString(n)
  {
    NatToStringValue(n);
  }

  /**
   * A client reads back the span and the length from the `Content-Range`
   * built of non-negative numbers, and rejects it exactly when RFC 7233
   * calls it invalid.
   */
  lemma ContentRangeRoundTrip(start: nat, end: nat, fileSize: nat)
    ensures ParseContentRange(ContentRangeValue(start, end, fileSize))
            == if start <= end < fileSize then Some((start, end, fileSize)) else None
  {
    DigitsOfNat(start);
    DigitsOfNat(end);
    DigitsOfNat(fileSize);
    ContentRangeFields(NatToString(start), NatToString(end), NatToString(fileSize));
  }

  /** `bytes <a>-<b>/<n>` splits into the three fields when `a` holds no '-' and `b` no '/'. */
  lemma ContentRangeFields(a: string, b: string, n: string)
    requires '-' !in a && '/' !in b
    ensures ParseContentRange("bytes " + a + "-" + b + "/" + n)
            == match (ParseDigits(a), ParseDigits(b), ParseDigits(n))
               case (Some(x), Some(y), Some(z)) => if x <= y < z then Some((x, y, z)) else None
               case _ => None
  {
    var v := "bytes " + a + "-" + b + "/" + n;
    assert v == "bytes " + (a + "-" + (b + "/" + n));
    assert v[..6] == "bytes " && v[6..] == a + "-" + (b + "/" + n);
    SplitAtFirstJoin(a, '-', b + "/" + n);
    SplitAtFirstJoin(b, '/', n);
  }

  /** The `Content-Disposition` value names the file: a client decodes it back to `filename`. */
  lemma DispositionRoundTrip(filename: string)
    ensures DispositionFilename(Disposition(filename)) == Some(filename)
  {
    var q := Percent.Quote(filename);
    var v := Disposition(filename);
    var n := |DispositionPrefix|;
    assert v[..n] == DispositionPrefix && v[n..|v| - 1] == q;
    Percent.QuoteRoundTrip(filename);
  }

  /** The header names `build_stream_headers` uses. */
  datatype HeaderName = AcceptRanges | ContentType | ContentRange | ContentLength | ContentDisposition

  /** How each name is spelled on the wire. */
  function Name(n: HeaderName): string {
    match n
    case AcceptRanges => "Accept-Ranges"
    case ContentType => "Content-Type"
    case ContentRange => "Content-Range"
    case ContentLength => "Content-Length"
    case ContentDisposition => "Content-Disposition"
  }

  /** No two names are spelled alike, so a map keyed by names is a map keyed by their spellings. */
  lemma NameIsInjective(m: HeaderName, n: HeaderName)
    ensures Name(m) == Name(n) ==> m == n
  {
    if Name(m) == Name(n) {
      assert |Name(m)| == |Name(n)|;
      assert Name(m)[0] == Name(n)[0] && Name(m)[8] == Name(n)[8];
    }
  }

  /** `build_stream_headers` */
  function BuildStreamHeaders(contentType: string, fileSize: int, start: int, end: int,
                              partial: bool, filename: Option<string> := None): (h: map<HeaderName, string>)
    ensures h.Keys == {AcceptRanges, ContentType, ContentLength}
                      + (if partial then {ContentRange} else {})
                      + (if filename.Some? && filename.value != [] then {ContentDisposition} else {})
    ensures h[AcceptRanges] == "bytes" && h[ContentType] == contentType
    ensures h[ContentLength] == IntToString(if partial then end - start + 1 else fileSize)
    ensures partial ==> h[ContentRange] == ContentRangeValue(start, end, fileSize)
    ensures ContentDisposition in h ==> h[ContentDisposition] == Disposition(filename.value)
  {
    var base := map[AcceptRanges := "bytes", ContentType := contentType];
    var sized :=
      if partial then base[ContentRange := ContentRangeValue(start, end, fileSize)][ContentLength := IntToString(end - start + 1)]
      else base[ContentLength := IntToString(fileSize)];
    if filename.Some? && filename.value != [] then sized[ContentDisposition := Disposition(filename.value)]
    else sized
  }

  /** A client reads back the number of bytes sent from `Content-Length`. */
  lemma LengthReadBack(contentType: string, fileSize: int, start: int, end: int,
                       partial: bool, filename: Option<string>)
    ensures ParseInt(BuildStreamHeaders(contentType, fileSize, start, end, partial, filename)[ContentLength])
            == Some(if partial then end - start + 1 else fileSize)
  {
    ParseIntToString(if partial then end - start + 1 else fileSize);
  }

  /**
   * A byte count that is not negative is sent as `1*DIGIT`, the form section
   * 3.3.2 of RFC 7230 gives `Content-Length`, and a strict client reads it back.
   */
  lemma LengthIsDigits(contentType: string, fileSize: int, start: int, end: int,
                       partial: bool, filename: Option<string>)
    requires (if partial then end - start + 1 else fileSize) >= 0
    ensures ParseDigits(BuildStreamHeaders(contentType, fileSize, start, end, partial, filename)[ContentLength])
            == Some(if partial then end - start + 1 else fileSize)
  {
    DigitsOfNat(if partial then end - start + 1 else fileSize);
  }

  /** A client reads back the file name exactly as given from `Content-Disposition`. */
  lemma FilenameReadBack(contentType: string, fileSize: int, start: int, end: int,
                         partial: bool, filename: Option<string>)
    ensures var h := BuildStreamHeaders(contentType, fileSize, start, end, partial, filename);
            ContentDisposition in h ==> DispositionFilename(h[ContentDisposition]) == filename
  {
    if filename.Some? && filename.value != [] {
      DispositionRoundTrip(filename.value);
    }
  }

  /**
   * The headers announce the span `r` of a file of `fileSize` bytes: the
   * whole file with its size and no `Content-Range`; a partial span that is
   * not inverted with a `Content-Range` a client reads back as the same span,
   * and a `Content-Length` between 1 and the bytes left after the start.
   */
  predicate Announces(h: map<HeaderName, string>, r: ByteRange, fileSize: int) {
    && ContentLength in h
    && (!r.partial ==> ContentRange !in h && h[ContentLength] == IntToString(fileSize))
    && (r.partial && r.start <= r.end ==>
          && ContentRange in h
          && ParseContentRange(h[ContentRange]) == Some((r.start, r.end, fileSize))
          && h[ContentLength] == IntToString(r.end - r.start + 1)
          && 1 <= r.end - r.start + 1 <= fileSize - r.start)
  }

  /** Parsing a `Range` header and building the headers from the result announces the parsed span. */
  lemma StreamHeadersDescribeRange(header: Option<string>, fileSize: int, contentType: string, filename: Option<string>)
    requires ParseRange(header, fileSize).Success?
    ensures var r := ParseRange(header, fileSize).value;
            Announces(BuildStreamHeaders(contentType, fileSize, r.start, r.end, r.partial, filename), r, fileSize)
  {
    var r := ParseRange(header, fileSize).value;
    SpanHeaders(r, fileSize, contentType, filename);
  }

  /** The same for any span that lies within the file when it is partial. */
  lemma SpanHeaders(r: ByteRange, fileSize: int, contentType: string, filename: Option<string>)
    requires r.partial ==> 0 <= r.start && r.end < fileSize
    ensures Announces(BuildStreamHeaders(contentType, fileSize, r.start, r.end, r.partial, filename), r, fileSize)
  {
    if r.partial && r.start <= r.end {
      RangeReadBack(r.start, r.end, fileSize, contentType, filename);
    }
  }

  /** A client reads back a satisfiable span from `Content-Range`. */
  lemma RangeReadBack(start: nat, end: nat, fileSize: nat, contentType: string, filename: Option<string>)
    requires start <= end < fileSize
    ensures var h := BuildStreamHeaders(contentType, fileSize, start, end, true, filename);
            ParseContentRange(h[ContentRange]) == Some((start, end, fileSize))
  {
    ContentRangeRoundTrip(start, end, fileSize);
  }

  /**
   * The quirk of an inverted range: `bytes=<a>-<b>` with `b < a` is answered
   * as partial content, with a `Content-Length` below 1 and a `Content-Range`
   * that a client following section 4.2 of RFC 7233 rejects.
   */
  lemma InvertedRangeHeaders(a: nat, b: int, fileSize: int, contentType: string, filename: Option<string>)
    requires b < a < fileSize
    ensures var r := ParseRange(Some(RangeUnit + NatToString(a) + "-" + IntToString(b)), fileSize);
            && r == Success(ByteRange(a, b, 206, true))
            && var h := BuildStreamHeaders(contentType, fileSize, a, b, true, filename);
               && ParseInt(h[ContentLength]) == Some(b - a + 1)
               && b - a + 1 <= 0
               && ParseContentRange(h[ContentRange]) == None
  {
    RangeOfNumbers(a, b, fileSize);
    LengthReadBack(contentType, fileSize, a, b, true, filename);
    if b >= 0 {
      ContentRangeRoundTrip(a, b, fileSize);
    } else {
      DigitsOfNat(a);
      ContentRangeFields(NatToString(a), IntToString(b), IntToString(fileSize));
    }
  }
}
