/**
 * The EOF1 container header: the state-machine parser `validate_eof_headers`, the trusting
 * reader `read_valid_eof1_header`, and the grammar of EIP-3540 both are measured against.
 */
module EofHeader {
  import opened Bytes
  import opened EofInstructions

  const TERMINATOR: byte := 0x00
  const TYPE_SECTION: byte := 0x01
  const CODE_SECTION: byte := 0x02
  const DATA_SECTION: byte := 0x04
  const CODE_SECTION_NUMBER_LIMIT := 1024

  /** The section sizes announced by a header with one type, n code and one data section. */
  datatype Headers = Headers(typeSize: nat, codeSizes: seq<nat>, dataSize: nat)

  // ---------------------------------------------------------------- the grammar

  function Print16(n: nat): (s: seq<byte>)
    requires n < 0x1_0000
    ensures |s| == 2 && U16(s, 0) == n
  {
    [n / 256, n % 256]
  }

  predicate Sizes(sizes: seq<nat>) {
    forall i :: 0 <= i < |sizes| ==> 0 < sizes[i] < 0x1_0000
  }

  function PrintSizes(sizes: seq<nat>): (s: seq<byte>)
    requires Sizes(sizes)
    ensures |s| == 2 * |sizes|
  {
    if sizes == [] then [] else Print16(sizes[0]) + PrintSizes(sizes[1..])
  }

  predicate WellFormed(h: Headers) {
    && 0 < |h.codeSizes| <= CODE_SECTION_NUMBER_LIMIT
    && Sizes(h.codeSizes) && h.dataSize < 0x1_0000
    && h.typeSize == 4 * |h.codeSizes|
  }

  /** Everything between the version byte and the section bodies. */
  function PrintHeaders(h: Headers): (s: seq<byte>)
    requires WellFormed(h)
  {
    [TYPE_SECTION] + Print16(h.typeSize) +
    [CODE_SECTION] + Print16(|h.codeSizes|) + PrintSizes(h.codeSizes) +
    [DATA_SECTION] + Print16(h.dataSize) + [TERMINATOR]
  }

  function Sum(sizes: seq<nat>): nat {
    if sizes == [] then 0 else sizes[0] + Sum(sizes[1..])
  }

  function BodiesSize(h: Headers): nat {
    h.typeSize + Sum(h.codeSizes) + h.dataSize
  }

  /** `eof_header_size`, term by term. */
  function HeaderSize(codeSections: nat): nat {
    2 + 1 + 2 * 3 + 1 + 2 + codeSections * 2 + 1
  }

  // ---------------------------------------------------------------- straight-line reading

  function ParseSizes(c: seq<byte>, it: nat, n: nat): (r: Result<seq<nat>>)
    ensures r.Ok? ==> |r.value| == n && Sizes(r.value) && it + 2 * n <= |c|
    ensures r.Err? ==> r.error == IncompleteSectionSize || r.error == ZeroSectionSize
    decreases n
  {
    if n == 0 then if it <= |c| then Ok([]) else Err(IncompleteSectionSize)
    else if it + 1 >= |c| then Err(IncompleteSectionSize)
    else if U16(c, it) == 0 then Err(ZeroSectionSize)
    else
      match ParseSizes(c, it + 2, n - 1)
      case Ok(rest) => Ok([U16(c, it)] + rest)
      case Err(e) => Err(e)
  }

  /** The parser without its loop: the sections in their only possible order. */
  function ParseHeaders(c: seq<byte>): Result<Headers>
    requires |c| >= 3
  {
    if |c| == 3 then Err(SectionHeadersNotTerminated)
    else if c[3] != TYPE_SECTION then Err(TypeSectionMissing)
    else if |c| == 4 then Err(SectionHeadersNotTerminated)
    else if |c| == 5 then Err(IncompleteSectionSize)
    else if U16(c, 4) == 0 then Err(ZeroSectionSize)
    else if |c| == 6 then Err(SectionHeadersNotTerminated)
    else if c[6] != CODE_SECTION then Err(CodeSectionMissing)
    else if |c| <= 8 then Err(IncompleteSectionNumber)
    else if U16(c, 7) == 0 then Err(ZeroSectionSize)
    else if U16(c, 7) > CODE_SECTION_NUMBER_LIMIT then Err(TooManyCodeSections)
    else if |c| == 9 then Err(SectionHeadersNotTerminated)
    else
      match ParseSizes(c, 9, U16(c, 7))
      case Err(e) => Err(e)
      case Ok(codeSizes) => ParseTail(c, U16(c, 4), codeSizes)
  }

  function ParseTail(c: seq<byte>, typeSize: nat, codeSizes: seq<nat>): Result<Headers>
    requires 9 + 2 * |codeSizes| <= |c|
  {
    var it := 9 + 2 * |codeSizes|;
    if |c| == it then Err(SectionHeadersNotTerminated)
    else if c[it] != DATA_SECTION then Err(DataSectionMissing)
    else if |c| == it + 1 then Err(SectionHeadersNotTerminated)
    else if |c| == it + 2 then Err(IncompleteSectionSize)
    else if |c| == it + 3 then Err(SectionHeadersNotTerminated)
    else if c[it + 3] != TERMINATOR then Err(HeaderTerminatorMissing)
    else
      var h := Headers(typeSize, codeSizes, U16(c, it + 1));
      if BodiesSize(h) != |c| - (it + 4) then Err(InvalidSectionBodiesSize)
      else if typeSize != |codeSizes| * 4 then Err(InvalidTypeSectionSize)
      else Ok(h)
  }

  // ---------------------------------------------------------------- validate_eof_headers

  datatype ParseState = SectionId | SectionSize | Terminated

  function SectionMissingError(sectionId: byte): EofError
    requires sectionId in {TERMINATOR, TYPE_SECTION, CODE_SECTION, DATA_SECTION}
  {
    if sectionId == TERMINATOR then HeaderTerminatorMissing
    else if sectionId == TYPE_SECTION then TypeSectionMissing
    else if sectionId == CODE_SECTION then CodeSectionMissing
    else DataSectionMissing
  }

  /** The parser's variables between two iterations. */
  datatype Cursor = Cursor(state: ParseState, sectionId: byte, sectionNum: nat, expected: byte, it: nat,
                           typeSizes: seq<nat>, codeSizes: seq<nat>, dataSizes: seq<nat>)

  /** The eight situations the loop head can see, with what has been read so far. */
  ghost predicate AtPhase(c: seq<byte>, k: Cursor) {
    && |c| >= 3 && k.it <= |c|
    && match k.state
       case SectionId =>
         || (k.expected == TYPE_SECTION && k.it == 3 && k.typeSizes == [] && k.codeSizes == [] && k.dataSizes == [])
         || (k.expected == CODE_SECTION && k.it == 6 && TypeRead(c, k) && k.codeSizes == [] && k.dataSizes == [])
         || (k.expected == DATA_SECTION && CodeRead(c, k) && k.it == 9 + 2 * |k.codeSizes| && k.dataSizes == [])
         || (k.expected == TERMINATOR && DataRead(c, k) && k.it == 12 + 2 * |k.codeSizes|)
       case SectionSize =>
         || (k.sectionId == TYPE_SECTION && k.expected == CODE_SECTION && k.it == 4 && c[3] == TYPE_SECTION
             && k.typeSizes == [] && k.codeSizes == [] && k.dataSizes == [])
         || (k.sectionId == CODE_SECTION && k.expected == DATA_SECTION && k.it == 9 && TypeRead(c, k) && NumberRead(c)
             && k.sectionNum == U16(c, 7) && k.codeSizes == [] && k.dataSizes == [])
         || (k.sectionId == DATA_SECTION && k.expected == TERMINATOR && CodeRead(c, k) && k.it == 10 + 2 * |k.codeSizes|
             && c[9 + 2 * |k.codeSizes|] == DATA_SECTION && k.dataSizes == [])
       case Terminated =>
         DataRead(c, k) && k.it == 13 + 2 * |k.codeSizes| && c[12 + 2 * |k.codeSizes|] == TERMINATOR
  }

  ghost predicate TypeRead(c: seq<byte>, k: Cursor) {
    |c| >= 6 && c[3] == TYPE_SECTION && U16(c, 4) != 0 && k.typeSizes == [U16(c, 4)]
  }

  ghost predicate NumberRead(c: seq<byte>) {
    |c| >= 9 && c[6] == CODE_SECTION && 0 < U16(c, 7) <= CODE_SECTION_NUMBER_LIMIT
  }

  ghost predicate CodeRead(c: seq<byte>, k: Cursor) {
    TypeRead(c, k) && NumberRead(c) && |c| > 9 && ParseSizes(c, 9, U16(c, 7)) == Ok(k.codeSizes)
  }

  ghost predicate DataRead(c: seq<byte>, k: Cursor) {
    && CodeRead(c, k) && |c| >= 12 + 2 * |k.codeSizes|
    && c[9 + 2 * |k.codeSizes|] == DATA_SECTION && k.dataSizes == [U16(c, 10 + 2 * |k.codeSizes|)]
  }

  /** Reading one more size extends a successful prefix or fails where the whole list fails. */
  lemma {:induction false} ParseSizesSplit(c: seq<byte>, it: nat, n: nat, k: nat)
    requires k < n && ParseSizes(c, it, k).Ok?
    ensures it + 2 * k + 1 >= |c| ==> ParseSizes(c, it, n) == Err(IncompleteSectionSize)
    ensures it + 2 * k + 1 < |c| && U16(c, it + 2 * k) == 0 ==> ParseSizes(c, it, n) == Err(ZeroSectionSize)
    ensures it + 2 * k + 1 < |c| && U16(c, it + 2 * k) != 0 ==>
      ParseSizes(c, it, k + 1) == Ok(ParseSizes(c, it, k).value + [U16(c, it + 2 * k)])
    decreases n
  {
    hide U16;
    if k > 0 {
      ParseSizesSplit(c, it + 2, n - 1, k - 1);
      if it + 2 * k + 1 < |c| && U16(c, it + 2 * k) != 0 {
        var rest, x := ParseSizes(c, it + 2, k - 1).value, [U16(c, it + 2 * k)];
        assert [U16(c, it)] + (rest + x) == ([U16(c, it)] + rest) + x;
      }
    } else if it + 1 < |c| && U16(c, it) != 0 {
      assert ParseSizes(c, it + 2, 0) == Ok([]);
      assert [U16(c, it)] + [] == [] + [U16(c, it)];
    }
  }

  /** The SectionSize case for the code sections. */
  method ReadCodeSizes(c: seq<byte>, it: nat, sectionNum: nat) returns (r: Result<seq<nat>>, it': nat)
    requires sectionNum > 0 && it <= |c|
    ensures r == ParseSizes(c, it, sectionNum)
    ensures r.Ok? ==> it' == it + 2 * sectionNum
  {
    hide U16;
    var sizes: seq<nat> := [];
    it' := it;
    var i := 0;
    while i < sectionNum
      invariant 0 <= i <= sectionNum && it' == it + 2 * i
      invariant ParseSizes(c, it, i) == Ok(sizes)
    {
      ParseSizesSplit(c, it, sectionNum, i);
      if it' + 1 >= |c| {
        return Err(IncompleteSectionSize), it';
      }
      var sectionSize := U16(c, it');
      it' := it' + 2;
      if sectionSize == 0 {
        return Err(ZeroSectionSize), it';
      }
      sizes := sizes + [sectionSize];
      i := i + 1;
    }
    return Ok(sizes), it';
  }

  method ValidateEofHeaders(c: seq<byte>) returns (r: Result<Headers>)
    requires |c| >= 3
    ensures r == ParseHeaders(c)
  {
    hide U16, Sum;
    var state: ParseState, sectionId: byte, sectionNum: nat := SectionId, 0, 0;
    var typeSizes: seq<nat>, codeSizes: seq<nat>, dataSizes: seq<nat> := [], [], [];
    var it := 3;
    var expected := TYPE_SECTION;
    while it != |c| && state != Terminated
      invariant AtPhase(c, Cursor(state, sectionId, sectionNum, expected, it, typeSizes, codeSizes, dataSizes))
      decreases |c| - it
    {
      match state
      case SectionId =>
        sectionId := c[it];
        it := it + 1;
        if sectionId != expected {
          return Err(SectionMissingError(expected));
        }
        if sectionId == TERMINATOR {
          state := Terminated;
        } else if sectionId == TYPE_SECTION {
          expected := CODE_SECTION;
          state := SectionSize;
        } else if sectionId == CODE_SECTION {
          if it + 1 >= |c| {
            return Err(IncompleteSectionNumber);
          }
          sectionNum := U16(c, it);
          it := it + 2;
          if sectionNum == 0 {
            return Err(ZeroSectionSize);
          }
          if sectionNum > CODE_SECTION_NUMBER_LIMIT {
            return Err(TooManyCodeSections);
          }
          expected := DATA_SECTION;
          state := SectionSize;
        } else {
          expected := TERMINATOR;
          state := SectionSize;
        }
      case SectionSize =>
        if sectionId == CODE_SECTION {
          var sizes, end := ReadCodeSizes(c, it, sectionNum);
          if sizes.Err? {
            return Err(sizes.error);
          }
          assert codeSizes + sizes.value == sizes.value;
          codeSizes, it := codeSizes + sizes.value, end;
        } else {
          if it + 1 >= |c| {
            return Err(IncompleteSectionSize);
          }
          var sectionSize := U16(c, it);
          it := it + 2;
          if sectionSize == 0 && sectionId != DATA_SECTION {
            return Err(ZeroSectionSize);
          }
          if sectionId == TYPE_SECTION {
            typeSizes := typeSizes + [sectionSize];
          } else {
            dataSizes := dataSizes + [sectionSize];
          }
        }
        state := SectionId;
    }
    if state != Terminated {
      return Err(SectionHeadersNotTerminated);
    }
    var bodiesSize := typeSizes[0] + Sum(codeSizes) + dataSizes[0];
    if bodiesSize != |c| - it {
      return Err(InvalidSectionBodiesSize);
    }
    if typeSizes[0] != |codeSizes| * 4 {
      return Err(InvalidTypeSectionSize);
    }
    return Ok(Headers(typeSizes[0], codeSizes, dataSizes[0]));
  }

  // ---------------------------------------------------------------- the grammar is what is accepted

  lemma Print16Inverse(c: seq<byte>, it: nat, n: nat)
    requires it + 1 < |c| && n < 0x1_0000
    ensures U16(c, it) == n <==> c[it..it + 2] == Print16(n)
  {
    assert c[it..it + 2] == [c[it], c[it + 1]];
  }

  lemma ConcatEqual<T>(a: seq<T>, b: seq<T>, c: seq<T>, d: seq<T>)
    requires |a| == |c|
    ensures a + b == c + d <==> a == c && b == d
  {
    if a + b == c + d {
      assert a == (a + b)[..|a|] && b == (a + b)[|a|..];
      assert c == (c + d)[..|a|] && d == (c + d)[|a|..];
    }
  }

  lemma {:induction false} SizesArePrinted(c: seq<byte>, it: nat, n: nat, sizes: seq<nat>)
    ensures ParseSizes(c, it, n) == Ok(sizes) <==>
      |sizes| == n && Sizes(sizes) && it + 2 * n <= |c| && c[it..it + 2 * n] == PrintSizes(sizes)
    decreases n
  {
    hide U16, Print16;
    if n > 0 && |sizes| == n && it + 2 * n <= |c| {
      SizesArePrinted(c, it + 2, n - 1, sizes[1..]);
      assert c[it..it + 2 * n] == c[it..it + 2] + c[it + 2..it + 2 * n];
      assert sizes == [sizes[0]] + sizes[1..];
      assert Sizes(sizes) <==> 0 < sizes[0] < 0x1_0000 && Sizes(sizes[1..]);
      if Sizes(sizes) {
        Print16Inverse(c, it, sizes[0]);
        ConcatEqual(c[it..it + 2], c[it + 2..it + 2 * n], Print16(sizes[0]), PrintSizes(sizes[1..]));
      }
      if ParseSizes(c, it, n).Ok? {
        var rest := ParseSizes(c, it + 2, n - 1).value;
        assert ParseSizes(c, it, n).value[1..] == rest;
        assert [U16(c, it)] + sizes[1..] == sizes <==> sizes[0] == U16(c, it);
      }
    }
  }

  /**
   * The parser accepts exactly the printed headers followed by bodies of the announced size,
   * and reads back what was printed.
   */
  lemma HeadersRoundTrip(c: seq<byte>, h: Headers)
    requires |c| >= 3
    ensures ParseHeaders(c) == Ok(h) <==>
      WellFormed(h) && exists bodies :: c[3..] == PrintHeaders(h) + bodies && |bodies| == BodiesSize(h)
  {
    hide U16, Print16, Sum, PrintSizes, ParseSizes;
    if ParseHeaders(c) == Ok(h) {
      ParsedIsPrinted(c, h);
    }
    if WellFormed(h) && exists bodies :: c[3..] == PrintHeaders(h) + bodies && |bodies| == BodiesSize(h) {
      var bodies :| c[3..] == PrintHeaders(h) + bodies && |bodies| == BodiesSize(h);
      PrintedIsParsed(c, h, bodies);
    }
  }

  /** The headers of a container cut at the places the grammar puts its pieces. */
  lemma Cut(c: seq<byte>, n: nat)
    requires |c| >= 13 + 2 * n
    ensures c[3..] == [c[3]] + c[4..6] + [c[6]] + c[7..9] + c[9..9 + 2 * n] + [c[9 + 2 * n]]
                      + c[10 + 2 * n..12 + 2 * n] + [c[12 + 2 * n]] + c[13 + 2 * n..]
  {
  }

  lemma ParsedIsPrinted(c: seq<byte>, h: Headers)
    requires |c| >= 3 && ParseHeaders(c) == Ok(h)
    ensures WellFormed(h)
    ensures HeaderSize(|h.codeSizes|) == 3 + |PrintHeaders(h)|
    ensures |c| == HeaderSize(|h.codeSizes|) + BodiesSize(h)
    ensures c[3..] == PrintHeaders(h) + c[HeaderSize(|h.codeSizes|)..]
  {
    hide U16, Print16, Sum, PrintSizes, ParseSizes;
    var n := |h.codeSizes|;
    SizesArePrinted(c, 9, n, h.codeSizes);
    Print16Inverse(c, 4, h.typeSize);
    Print16Inverse(c, 7, n);
    Print16Inverse(c, 10 + 2 * n, h.dataSize);
    Cut(c, n);
  }

  /** Where the pieces of the printed headers lie. */
  lemma PrintedPieces(c: seq<byte>, h: Headers, bodies: seq<byte>)
    requires |c| >= 3 && WellFormed(h) && c[3..] == PrintHeaders(h) + bodies
    ensures var n := |h.codeSizes|;
      && |c| == 13 + 2 * n + |bodies|
      && c[3] == TYPE_SECTION && c[4..6] == Print16(h.typeSize)
      && c[6] == CODE_SECTION && c[7..9] == Print16(n) && c[9..9 + 2 * n] == PrintSizes(h.codeSizes)
      && c[9 + 2 * n] == DATA_SECTION && c[10 + 2 * n..12 + 2 * n] == Print16(h.dataSize)
      && c[12 + 2 * n] == TERMINATOR
  {
    hide Print16, PrintSizes, Sum;
    var n := |h.codeSizes|;
    var p := PrintHeaders(h);
    assert forall i :: 0 <= i < |p| ==> c[3 + i] == c[3..][i] == p[i];
    assert c[4..6] == p[1..3] == Print16(h.typeSize);
    assert c[7..9] == p[4..6] == Print16(n);
    assert c[9..9 + 2 * n] == p[6..6 + 2 * n] == PrintSizes(h.codeSizes);
    assert c[10 + 2 * n..12 + 2 * n] == p[7 + 2 * n..9 + 2 * n] == Print16(h.dataSize);
  }

  lemma PrintedIsParsed(c: seq<byte>, h: Headers, bodies: seq<byte>)
    requires |c| >= 3 && WellFormed(h) && c[3..] == PrintHeaders(h) + bodies && |bodies| == BodiesSize(h)
    ensures ParseHeaders(c) == Ok(h)
  {
    hide U16, Print16, Sum, PrintSizes, ParseSizes, PrintHeaders;
    var n := |h.codeSizes|;
    PrintedPieces(c, h, bodies);
    SizesArePrinted(c, 9, n, h.codeSizes);
    Print16Inverse(c, 4, h.typeSize);
    Print16Inverse(c, 7, n);
    Print16Inverse(c, 10 + 2 * n, h.dataSize);
  }

  // ---------------------------------------------------------------- incomplete containers

  lemma {:induction false} TruncatedSizes(c: seq<byte>, it: nat, n: nat, k: nat)
    requires ParseSizes(c, it, n).Ok? && it <= k < it + 2 * n
    ensures ParseSizes(c[..k], it, n) == Err(IncompleteSectionSize)
    decreases n
  {
    if it + 1 < k { TruncatedSizes(c, it + 2, n - 1, k); }
  }

  lemma {:induction false} WholeSizes(c: seq<byte>, it: nat, n: nat, k: nat)
    requires ParseSizes(c, it, n).Ok? && it + 2 * n <= k <= |c|
    ensures ParseSizes(c[..k], it, n) == ParseSizes(c, it, n)
    decreases n
  {
    if n > 0 { WholeSizes(c, it + 2, n - 1, k); }
  }

  lemma SameNumbers(c: seq<byte>, k: nat)
    requires k <= |c|
    ensures forall i: nat :: i + 1 < k ==> U16(c[..k], i) == U16(c, i)
  {
  }

  /** The first k bytes of a container whose headers are in order tell by their error where they were cut. */
  lemma TruncatedContainer(c: seq<byte>, h: Headers, k: nat)
    requires |c| >= 3 && ParseHeaders(c) == Ok(h) && 3 <= k < |c|
    ensures var n, r := |h.codeSizes|, ParseHeaders(c[..k]);
      && r.Err?
      && (r.error == InvalidSectionBodiesSize <==> k >= 13 + 2 * n)
      && (r.error == IncompleteSectionNumber <==> k == 7 || k == 8)
      && (r.error == SectionHeadersNotTerminated <==> k in {3, 4, 6, 9, 9 + 2 * n, 10 + 2 * n, 12 + 2 * n})
      && (r.error == IncompleteSectionSize <==> k == 5 || 9 < k < 9 + 2 * n || k == 11 + 2 * n)
  {
    hide ParseSizes, Sum, U16;
    var n := |h.codeSizes|;
    SameNumbers(c, k);
    if 9 < k {
      if k < 9 + 2 * n { TruncatedSizes(c, 9, n, k); } else { WholeSizes(c, 9, n, k); }
    }
  }

  /** Too few or too many bytes behind complete headers. */
  lemma WrongBodies(c: seq<byte>, h: Headers, bodies: seq<byte>)
    requires |c| >= 3 && WellFormed(h) && c[3..] == PrintHeaders(h) + bodies && |bodies| != BodiesSize(h)
    ensures ParseHeaders(c) == Err(InvalidSectionBodiesSize)
  {
    hide U16, Print16, Sum, PrintSizes, ParseSizes, PrintHeaders;
    var n := |h.codeSizes|;
    PrintedPieces(c, h, bodies);
    SizesArePrinted(c, 9, n, h.codeSizes);
    Print16Inverse(c, 4, h.typeSize);
    Print16Inverse(c, 7, n);
    Print16Inverse(c, 10 + 2 * n, h.dataSize);
  }
}
