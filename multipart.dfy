/** `createMultipartBuffers` of formidable-mini's 100 MB benchmark: it lays
    out a multipart/form-data body (RFC 7578, with the delimiters of section
    5.1.1 of RFC 2046) as one buffer per file part plus a closing buffer.
    Buffers are modelled as the strings they are made from; the size unit
    (1024 * 1024 in the benchmark) is a parameter. */
module MultipartBody {
  import opened JsStrings

  const CRLF := "\r\n"

  /** The benchmark's unit: part sizes are given in mebibytes. */
  const MiB := 1024 * 1024

  // ---------------------------------------------------------------------------
  // Decimal numerals

  /** `${n}` for a non-negative integer. */
  function Decimal(n: nat): (s: string)
    ensures s != [] && forall k :: 0 <= k < |s| ==> IsDigit(s[k])
  {
    if n < 10 then [DigitChar(n)] else Decimal(n / 10) + [DigitChar(n % 10)]
  }

  function DigitChar(d: nat): (c: char)
    requires d < 10
    ensures IsDigit(c) && DigitValue(c) == d
  {
    ('0' as int + d) as char
  }

  function DigitValue(c: char): int {
    c as int - '0' as int
  }

  /** The value of a string of digits. */
  function ParseDecimal(s: string): int {
    if s == [] then 0 else ParseDecimal(s[..|s| - 1]) * 10 + DigitValue(s[|s| - 1])
  }

  /** Reading a numeral back gives the number. */
  lemma {:induction false} DecimalRoundTrip(n: nat)
    ensures ParseDecimal(Decimal(n)) == n
  {
    var s := Decimal(n);
    if n >= 10 {
      DecimalRoundTrip(n / 10);
      assert s[..|s| - 1] == Decimal(n / 10);
    }
  }

  /** Different numbers have different numerals. */
  lemma DecimalInjective(m: nat, n: nat)
    requires Decimal(m) == Decimal(n)
    ensures m == n
  {
    DecimalRoundTrip(m);
    DecimalRoundTrip(n);
  }

  // ---------------------------------------------------------------------------
  // One part

  const DispositionPrefix := "content-disposition: form-data; "

  const FieldPrefix := "name=\"file"

  /** `name="file{i+1}"` */
  function FieldParam(i: nat): string {
    FieldPrefix + Decimal(i + 1) + "\""
  }

  /** `filename="random{i+1}.bin"` */
  function FileParam(i: nat): string {
    "filename=\"random" + Decimal(i + 1) + ".bin\""
  }

  /** The parameters of the `content-disposition` header of part `i`. */
  function DispositionParams(i: nat): string {
    FieldParam(i) + "; " + FileParam(i)
  }

  /** The `content-disposition` header of the part at index `i`. */
  function DispositionLine(i: nat): string {
    DispositionPrefix + DispositionParams(i)
  }

  const ContentTypeLine := "content-type: application/octet-stream"

  /** The lines joined with CRLF for the part at index `i` with `n` payload bytes. */
  function PartLines(boundary: string, i: nat, n: nat): seq<string> {
    ["--" + boundary, DispositionLine(i), ContentTypeLine, "", Repeat('0', n), ""]
  }

  /** The buffer of the part at index `i`. */
  function PartBuffer(boundary: string, i: nat, n: nat): string {
    Join(PartLines(boundary, i, n), CRLF)
  }

  /** The closing buffer: `[`--${boundary}--`, ''].join('\r\n')`. */
  function CloseBuffer(boundary: string): string {
    Join(["--" + boundary + "--", ""], CRLF)
  }

  /** The header block of a part: the delimiter line, the two header lines
      and the empty line, each ended by CRLF. */
  function HeaderLines(boundary: string, i: nat): seq<string> {
    ["--" + boundary, DispositionLine(i), ContentTypeLine, ""]
  }

  /** Everything of a part up to its payload. */
  function PartHeader(boundary: string, i: nat): string {
    Join(HeaderLines(boundary, i), CRLF) + CRLF
  }

  /** Joining two non-empty lists is joining each and putting the separator between. */
  lemma {:induction false} JoinSplit(xs: seq<string>, ys: seq<string>, sep: string)
    requires xs != [] && ys != []
    ensures Join(xs + ys, sep) == Join(xs, sep) + sep + Join(ys, sep)
  {
    if |xs| == 1 {
      assert (xs + ys)[1..] == ys;
    } else {
      assert (xs + ys)[1..] == xs[1..] + ys;
      JoinSplit(xs[1..], ys, sep);
    }
  }

  /** A part is its header, then `n` `'0'` characters, then CRLF. */
  lemma PartLayout(boundary: string, i: nat, n: nat)
    ensures PartBuffer(boundary, i, n) == PartHeader(boundary, i) + Repeat('0', n) + CRLF
  {
    var hs := HeaderLines(boundary, i);
    var ps := [Repeat('0', n), ""];
    assert PartLines(boundary, i, n) == hs + ps;
    JoinSplit(hs, ps, CRLF);
    assert ps[1..] == [""];
  }

  /** The closing buffer is the close delimiter `--boundary--` and CRLF. */
  lemma CloseLayout(boundary: string)
    ensures CloseBuffer(boundary) == "--" + boundary + "--" + CRLF
  {
    var ps := ["--" + boundary + "--", ""];
    assert ps[1..] == [""];
    assert Join(ps, CRLF) == ps[0] + CRLF + "";
  }

  /** The payload of a part buffer, cut out behind its header and before the final CRLF. */
  function Payload(boundary: string, i: nat, buf: string): string
    requires |PartHeader(boundary, i)| + 2 <= |buf|
  {
    buf[|PartHeader(boundary, i)|..|buf| - 2]
  }

  /** Cutting the payload out of a part gives back its `n` `'0'` characters:
      the part's size can be read off its buffer. */
  lemma PayloadRoundTrip(boundary: string, i: nat, n: nat)
    ensures |PartBuffer(boundary, i, n)| == |PartHeader(boundary, i)| + n + 2
    ensures Payload(boundary, i, PartBuffer(boundary, i, n)) == Repeat('0', n)
  {
    PartLayout(boundary, i, n);
    var h := PartHeader(boundary, i);
    var buf := h + Repeat('0', n) + CRLF;
    assert buf[|h|..|buf| - 2] == Repeat('0', n);
  }

  /** The header block, written out: the delimiter line, the two header
      lines, and the empty line. */
  lemma {:induction false} HeaderLayout(boundary: string, i: nat)
    ensures PartHeader(boundary, i)
      == ("--" + boundary + CRLF) + (DispositionLine(i) + CRLF + ContentTypeLine) + (CRLF + CRLF)
  {
    var a, b, c := "--" + boundary, DispositionLine(i), ContentTypeLine;
    var hs := HeaderLines(boundary, i);
    assert hs[1..] == [b, c, ""] && hs[1..][1..] == [c, ""] && hs[1..][1..][1..] == [""];
    assert Join([c, ""], CRLF) == c + CRLF + "";
    assert Join([b, c, ""], CRLF) == b + CRLF + (c + CRLF + "");
    assert Join(hs, CRLF) == a + CRLF + (b + CRLF + (c + CRLF + ""));
    assert c + CRLF + "" == c + CRLF;
  }

  /** A part starts with its delimiter line `--boundary` CRLF, and its header
      block ends with an empty line, so CRLF CRLF comes right before the payload. */
  lemma PartFraming(boundary: string, i: nat, n: nat)
    ensures "--" + boundary + CRLF <= PartHeader(boundary, i) <= PartBuffer(boundary, i, n)
    ensures EndsWith(PartHeader(boundary, i), CRLF + CRLF)
  {
    PartLayout(boundary, i, n);
    HeaderLayout(boundary, i);
    var h := PartHeader(boundary, i);
    var d := "--" + boundary + CRLF;
    assert h[..|d|] == d;
    assert h[|h| - 4..] == CRLF + CRLF;
    assert (h + Repeat('0', n) + CRLF)[..|h|] == h;
  }

  /** The content-disposition line of part `i` names the field `file{i+1}`
      and the file `random{i+1}.bin`. */
  lemma DispositionNames(i: nat)
    ensures OccursAt(DispositionLine(i), FieldParam(i), |DispositionPrefix|)
    ensures EndsWith(DispositionLine(i), FileParam(i))
  {
    var d := DispositionLine(i);
    var p := |DispositionPrefix|;
    assert d == DispositionPrefix + FieldParam(i) + "; " + FileParam(i);
    assert d[p..p + |FieldParam(i)|] == FieldParam(i);
    assert d[|d| - |FileParam(i)|..] == FileParam(i);
  }

  /** No field name is a proper prefix of another's continuation: a field
      name followed by anything determines the part. */
  lemma FieldParamDetermines(i: nat, j: nat, t: string, u: string)
    requires FieldParam(i) + t == FieldParam(j) + u
    ensures i == j
  {
    var a, b := Decimal(i + 1), Decimal(j + 1);
    var y1, y2 := a + ("\"" + t), b + ("\"" + u);
    assert FieldParam(i) + t == FieldPrefix + y1;
    assert FieldParam(j) + u == FieldPrefix + y2;
    assert (FieldPrefix + y1)[|FieldPrefix|..] == y1;
    assert (FieldPrefix + y2)[|FieldPrefix|..] == y2;
    assert y1[..|a|] == a && y1[|a|] == '"';
    assert y2[..|b|] == b && y2[|b|] == '"';
    DigitsBeforeQuote(a, b, y1, y2);
    DecimalInjective(i + 1, j + 1);
  }

  /** Different parts carry different field names. */
  lemma FieldNamesDistinct(i: nat, j: nat)
    requires i != j
    ensures FieldParam(i) != FieldParam(j)
  {
    if FieldParam(i) == FieldParam(j) {
      FieldParamDetermines(i, j, [], []);
    }
  }

  lemma PrefixCancel(p: string, x: string, y: string)
    requires p + x == p + y
    ensures x == y
  {
    assert x == (p + x)[|p|..];
  }

  lemma ParamsSplit(i: nat)
    ensures DispositionParams(i) == FieldParam(i) + ("; " + FileParam(i))
  {
  }

  /** Different parts have different content-disposition lines. */
  lemma DispositionsDistinct(i: nat, j: nat)
    requires i != j
    ensures DispositionLine(i) != DispositionLine(j)
  {
    if DispositionLine(i) == DispositionLine(j) {
      PrefixCancel(DispositionPrefix, DispositionParams(i), DispositionParams(j));
      ParamsSplit(i);
      ParamsSplit(j);
      FieldParamDetermines(i, j, "; " + FileParam(i), "; " + FileParam(j));
    }
  }

  /** Two numerals each followed by a `"` can only start the same string if they are equal. */
  lemma DigitsBeforeQuote(a: string, b: string, x: string, y: string)
    requires forall k :: 0 <= k < |a| ==> IsDigit(a[k])
    requires forall k :: 0 <= k < |b| ==> IsDigit(b[k])
    requires |a| < |x| && x[..|a|] == a && x[|a|] == '"'
    requires |b| < |y| && y[..|b|] == b && y[|b|] == '"'
    requires x == y
    ensures a == b
  {
    if |a| == |b| {
      assert a == x[..|a|] == b;
    }
  }

  /** The payload never contains the delimiter `--boundary`, and it contains
      the bare boundary only if that consists of `'0'` characters alone. */
  lemma BoundaryNotInPayload(boundary: string, n: nat)
    ensures !Contains(Repeat('0', n), "--" + boundary)
    ensures (exists j :: 0 <= j < |boundary| && boundary[j] != '0') ==> !Contains(Repeat('0', n), boundary)
  {
    assert ("--" + boundary)[0] != '0';
    RepeatExcludes('0', n, "--" + boundary);
    if exists j :: 0 <= j < |boundary| && boundary[j] != '0' {
      RepeatExcludes('0', n, boundary);
    }
  }

  /** The benchmark's boundary: 29 `-` followed by the current time in
      milliseconds, which is a parameter here. */
  function BenchBoundary(now: nat): string {
    Repeat('-', 29) + Decimal(now)
  }

  /** The benchmark's boundary never occurs in a payload. */
  lemma BenchBoundaryNotInPayload(now: nat, n: nat)
    ensures !Contains(Repeat('0', n), BenchBoundary(now))
  {
    assert BenchBoundary(now)[0] == '-';
    BoundaryNotInPayload(BenchBoundary(now), n);
  }

  // ---------------------------------------------------------------------------
  // createMultipartBuffers (bench-multipart-files-100mb-big.js:3-23)

  /** `createMultipartBuffers(boundary, sizes)` with `unit` bytes per size
      step (`MiB` in the benchmark): one buffer per size, in order, then the
      closing buffer. */
  method CreateMultipartBuffers(boundary: string, sizes: seq<nat>, unit: nat) returns (bufs: seq<string>)
    ensures |bufs| == |sizes| + 1
    ensures forall i :: 0 <= i < |sizes| ==> bufs[i] == PartBuffer(boundary, i, sizes[i] * unit)
    ensures bufs[|sizes|] == CloseBuffer(boundary)
  {
    bufs := [];
    for i := 0 to |sizes|
      invariant |bufs| == i
      invariant forall k :: 0 <= k < i ==> bufs[k] == PartBuffer(boundary, k, sizes[k] * unit)
    {
      var mb := sizes[i] * unit;
      bufs := bufs + [Join(["--" + boundary, DispositionLine(i), ContentTypeLine, "", Repeat('0', mb), ""], CRLF)];
    }
    bufs := bufs + [Join(["--" + boundary + "--", ""], CRLF)];
  }

  /** The whole body: the buffers written one after the other. */
  lemma BodyLayout(boundary: string, sizes: seq<nat>, unit: nat, bufs: seq<string>)
    requires |bufs| == |sizes| + 1
    requires forall i :: 0 <= i < |sizes| ==> bufs[i] == PartBuffer(boundary, i, sizes[i] * unit)
    requires bufs[|sizes|] == CloseBuffer(boundary)
    ensures forall i :: 0 <= i < |sizes| ==>
      |bufs[i]| == |PartHeader(boundary, i)| + sizes[i] * unit + 2
      && Payload(boundary, i, bufs[i]) == Repeat('0', sizes[i] * unit)
    ensures bufs[|sizes|] == "--" + boundary + "--" + CRLF
  {
    forall i | 0 <= i < |sizes|
      ensures |bufs[i]| == |PartHeader(boundary, i)| + sizes[i] * unit + 2
      ensures Payload(boundary, i, bufs[i]) == Repeat('0', sizes[i] * unit)
    {
      PayloadRoundTrip(boundary, i, sizes[i] * unit);
    }
    CloseLayout(boundary);
  }
}
