/**
 * Whole-container validation (`validate_types`, `validate_eof1`, `validate_eof`), the header the
 * executor reads back (`read_valid_eof1_header`), and where each code section lies.
 */
module EofValidation {
  import opened Bytes
  import opened Opcodes
  import opened EofInstructions
  import opened EofHeader
  import opened EofStackHeight

  datatype Eof1Header = Eof1Header(version: byte, codeSizes: seq<nat>, codeOffsets: seq<nat>, dataSize: nat,
                                   types: seq<EofCodeType>)

  // ---------------------------------------------------------------- types

  function ReadType(c: seq<byte>, offset: nat): EofCodeType
    requires offset + 3 < |c|
  {
    EofCodeType(c[offset], c[offset + 1], U16(c, offset + 2))
  }

  function TypesAt(c: seq<byte>, offset: nat, n: nat): (types: seq<EofCodeType>)
    requires offset + 4 * n <= |c|
    ensures |types| == n
  {
    seq(n, k requires 0 <= k < n => ReadType(c, offset + 4 * k))
  }

  predicate FirstTypeOk(types: seq<EofCodeType>) {
    |types| > 0 && types[0].inputs == 0 && types[0].outputs == NON_RETURNING
  }

  predicate TypesValid(types: seq<EofCodeType>) {
    FirstTypeOk(types) && forall t :: t in types ==> TypeOk(t)
  }

  /** The verdict on one type, in the order of the tests. */
  function TypeError(t: EofCodeType): Option<EofError> {
    if (t.outputs > OUTPUTS_INPUTS_NUMBER_LIMIT && t.outputs != NON_RETURNING) ||
       t.inputs > OUTPUTS_INPUTS_NUMBER_LIMIT then
      Some(InputsOutputsNumAboveLimit)
    else if t.maxStackHeight > MAX_STACK_HEIGHT then Some(MaxStackHeightAboveLimit)
    else None
  }

  /** Type k is the first offending one. */
  ghost predicate FirstBadType(types: seq<EofCodeType>, k: nat, e: EofError) {
    k < |types| && TypeError(types[k]) == Some(e) && forall j :: 0 <= j < k ==> TypeOk(types[j])
  }

  /** Why a type section is refused. */
  ghost predicate TypesRefuted(types: seq<EofCodeType>, e: EofError) {
    if !FirstTypeOk(types) then e == InvalidFirstSectionType else exists k: nat :: FirstBadType(types, k, e)
  }

  /** The limits in numbers: 127 inputs and outputs or 128 for a section that never returns, and 1023 items. */
  lemma TypeLimits(types: seq<EofCodeType>)
    ensures TypesValid(types) <==>
      && |types| > 0 && types[0].inputs == 0 && types[0].outputs == 128
      && forall k :: 0 <= k < |types| ==>
           types[k].inputs <= 127 && types[k].outputs <= 128 && types[k].maxStackHeight <= 1023
    ensures forall k: nat :: FirstBadType(types, k, MaxStackHeightAboveLimit) ==>
      types[k].inputs <= 127 && types[k].outputs <= 128 && types[k].maxStackHeight > 1023
    ensures forall k: nat :: FirstBadType(types, k, InputsOutputsNumAboveLimit) ==>
      types[k].inputs > 127 || types[k].outputs > 128
  {
    assert TypesValid(types) ==> forall k :: 0 <= k < |types| ==> types[k] in types;
  }

  method ValidateTypes(c: seq<byte>, headerSize: nat, typeSectionSize: nat) returns (r: Result<seq<EofCodeType>>)
    requires typeSectionSize > 0 && typeSectionSize % 4 == 0 && headerSize + typeSectionSize < |c|
    ensures var types := TypesAt(c, headerSize, typeSectionSize / 4);
      && (r.Ok? <==> TypesValid(types))
      && (r.Ok? ==> r.value == types)
      && (r == Err(InvalidFirstSectionType) <==> !FirstTypeOk(types))
      && (r.Err? ==> TypesRefuted(types, r.error))
  {
    hide U16;
    var types: seq<EofCodeType> := [];
    var offset := headerSize;
    ghost var all := TypesAt(c, headerSize, typeSectionSize / 4);
    while offset < headerSize + typeSectionSize
      invariant headerSize <= offset <= headerSize + typeSectionSize && (offset - headerSize) % 4 == 0
      invariant types == all[..(offset - headerSize) / 4]
    {
      ghost var k := (offset - headerSize) / 4;
      assert all[..k + 1] == all[..k] + [all[k]];
      types := types + [EofCodeType(c[offset], c[offset + 1], U16(c, offset + 2))];
      offset := offset + 4;
    }
    assert types == all;
    if types[0].inputs != 0 || types[0].outputs != NON_RETURNING {
      return Err(InvalidFirstSectionType);
    }
    var i := 0;
    while i < |types|
      invariant 0 <= i <= |types|
      invariant forall k :: 0 <= k < i ==> TypeOk(types[k])
    {
      var t := types[i];
      assert t in types;
      if (t.outputs > OUTPUTS_INPUTS_NUMBER_LIMIT && t.outputs != NON_RETURNING) ||
         t.inputs > OUTPUTS_INPUTS_NUMBER_LIMIT {
        assert FirstBadType(types, i, InputsOutputsNumAboveLimit);
        return Err(InputsOutputsNumAboveLimit);
      }
      if t.maxStackHeight > MAX_STACK_HEIGHT {
        assert FirstBadType(types, i, MaxStackHeightAboveLimit);
        return Err(MaxStackHeightAboveLimit);
      }
      i := i + 1;
    }
    return Ok(types);
  }

  // ---------------------------------------------------------------- code offsets

  /** Where section i really starts in the container. */
  function TrueOffset(h: Headers, i: nat): nat
    requires i <= |h.codeSizes|
  {
    HeaderSize(|h.codeSizes|) + h.typeSize + Sum(h.codeSizes[..i])
  }

  lemma SumSnoc(sizes: seq<nat>, i: nat)
    requires i < |sizes|
    ensures Sum(sizes[..i + 1]) == Sum(sizes[..i]) + sizes[i]
  {
    if i == 0 {
      assert sizes[..1] == [sizes[0]] && sizes[..0] == [];
    } else {
      SumSnoc(sizes[1..], i - 1);
      assert sizes[..i + 1][1..] == sizes[1..][..i] && sizes[..i][1..] == sizes[1..][..i - 1];
    }
  }

  lemma {:induction false} SumMonotone(sizes: seq<nat>, i: nat, j: nat)
    requires i <= j <= |sizes|
    ensures Sum(sizes[..i]) <= Sum(sizes[..j])
    decreases j - i
  {
    if i < j {
      SumSnoc(sizes, j - 1);
      SumMonotone(sizes, i, j - 1);
    }
  }

  /** Offsets are stored as `uint16_t`. */
  function StoredOffsets(h: Headers): (offsets: seq<nat>)
    ensures |offsets| == |h.codeSizes|
  {
    seq(|h.codeSizes|, i requires 0 <= i < |h.codeSizes| => TrueOffset(h, i) % 0x1_0000)
  }

  /** The loop both header readers run over the code sizes. */
  method AccumulateOffsets(h: Headers) returns (codeOffsets: seq<nat>)
    ensures codeOffsets == StoredOffsets(h)
  {
    codeOffsets := [];
    var offset := HeaderSize(|h.codeSizes|) + h.typeSize;
    var i := 0;
    while i < |h.codeSizes|
      invariant 0 <= i <= |h.codeSizes| && offset == TrueOffset(h, i)
      invariant codeOffsets == StoredOffsets(h)[..i]
    {
      SumSnoc(h.codeSizes, i);
      codeOffsets := codeOffsets + [offset % 0x1_0000];
      offset := offset + h.codeSizes[i];
      i := i + 1;
    }
  }

  ghost predicate Parsed(c: seq<byte>, h: Headers) {
    |c| >= 3 && ParseHeaders(c) == Ok(h)
  }

  lemma ParsedLayout(c: seq<byte>, h: Headers)
    requires Parsed(c, h)
    ensures WellFormed(h) && |c| == TrueOffset(h, |h.codeSizes|) + h.dataSize
    ensures HeaderSize(|h.codeSizes|) + 4 * |h.codeSizes| == TrueOffset(h, 0)
    ensures HeaderSize(|h.codeSizes|) + h.typeSize < |c|
  {
    hide PrintHeaders, ParseHeaders, U16;
    ParsedIsPrinted(c, h);
    assert h.codeSizes[..|h.codeSizes|] == h.codeSizes;
    SumMonotone(h.codeSizes, 1, |h.codeSizes|);
    SumSnoc(h.codeSizes, 0);
  }

  lemma SectionLayout(c: seq<byte>, h: Headers, i: nat)
    requires Parsed(c, h) && i < |h.codeSizes|
    ensures h.codeSizes[i] > 0
    ensures TrueOffset(h, i) + h.codeSizes[i] == TrueOffset(h, i + 1) <= |c|
    ensures StoredOffsets(h)[i] <= TrueOffset(h, i)
  {
    hide PrintHeaders, ParseHeaders, U16;
    ParsedLayout(c, h);
    SumSnoc(h.codeSizes, i);
    SumMonotone(h.codeSizes, i + 1, |h.codeSizes|);
    ModAtMost(TrueOffset(h, i));
  }

  lemma ModAtMost(x: nat)
    ensures x % 0x1_0000 <= x
  {
  }

  ghost function HeaderOf(c: seq<byte>, h: Headers): Eof1Header
    requires Parsed(c, h)
  {
    ParsedLayout(c, h);
    Eof1Header(c[2], h.codeSizes, StoredOffsets(h), h.dataSize, TypesAt(c, HeaderSize(|h.codeSizes|), |h.codeSizes|))
  }

  /** `get_code`: a clamped substring. */
  function GetCode(c: seq<byte>, header: Eof1Header, i: nat): seq<byte>
    requires i < |header.codeOffsets| == |header.codeSizes| && header.codeOffsets[i] <= |c|
  {
    var from, to := header.codeOffsets[i], header.codeOffsets[i] + header.codeSizes[i];
    c[from..if to <= |c| then to else |c|]
  }

  /** The two-byte offsets are exact for every section precisely when the last section starts below 65536. */
  lemma OffsetsExact(c: seq<byte>, h: Headers)
    requires Parsed(c, h)
    ensures (forall i :: 0 <= i < |h.codeSizes| ==> StoredOffsets(h)[i] == TrueOffset(h, i))
      <==> TrueOffset(h, |h.codeSizes| - 1) < 0x1_0000
  {
    hide PrintHeaders, ParseHeaders, U16, TrueOffset;
    ParsedLayout(c, h);
    var last := |h.codeSizes| - 1;
    forall i | 0 <= i < |h.codeSizes|
      ensures TrueOffset(h, i) <= TrueOffset(h, last)
    {
      OffsetMonotone(h, i, last);
    }
    assert StoredOffsets(h)[last] == TrueOffset(h, last) % 0x1_0000;
  }

  lemma OffsetMonotone(h: Headers, i: nat, j: nat)
    requires i <= j <= |h.codeSizes|
    ensures TrueOffset(h, i) <= TrueOffset(h, j)
  {
    SumMonotone(h.codeSizes, i, j);
  }

  // ---------------------------------------------------------------- acceptance

  /** Everything the three per-section checks promise about one code section. */
  ghost predicate SectionAccepted(s: Section) {
    InstructionsOk(s) && RjumpsOk(s.code) && StackOk(s, s.types[s.index].maxStackHeight)
  }

  ghost function SectionOf(c: seq<byte>, h: Headers, i: nat): Section
    requires Parsed(c, h) && i < |h.codeSizes|
  {
    SectionLayout(c, h, i);
    var header := HeaderOf(c, h);
    Section(GetCode(c, header, i), i, header.types, header.dataSize)
  }

  /** A valid EOF1 container, stated without any algorithm. */
  ghost predicate Accepted(c: seq<byte>, h: Headers) {
    && Parsed(c, h) && TypesValid(HeaderOf(c, h).types)
    && forall i: nat :: i < |h.codeSizes| ==> SectionAccepted(SectionOf(c, h, i))
  }

  lemma SectionShape(c: seq<byte>, h: Headers, i: nat)
    requires Parsed(c, h) && i < |h.codeSizes|
    ensures SectionOf(c, h, i).Valid() && |SectionOf(c, h, i).code| == h.codeSizes[i]
  {
    hide PrintHeaders, ParseHeaders, U16, TrueOffset, StoredOffsets;
    SectionLayout(c, h, i);
  }

  /** Why one code section is refused: by the first of the three checks that fails, with that check's reason. */
  ghost predicate SectionRefuted(s: Section, e: EofError)
    requires s.Valid()
  {
    if !InstructionsOk(s) then
      || (exists i: nat :: FirstError(s, i, e))
      || (e == InvalidNonReturningFlag && forall i: nat :: IsStart(s.code, i) ==> InstructionError(s, i) == None)
    else if !RjumpsOk(s.code) then e == InvalidRjumpDestination
    else Refuted(s, e) || (e == InvalidMaxStackHeight && exists m :: StackOk(s, m))
  }

  /** Section i is the first one that is not accepted. */
  ghost predicate FirstRefuted(c: seq<byte>, h: Headers, i: nat, e: EofError)
    requires Parsed(c, h)
  {
    && i < |h.codeSizes| && SectionOf(c, h, i).Valid() && !SectionAccepted(SectionOf(c, h, i))
    && SectionRefuted(SectionOf(c, h, i), e)
    && forall k: nat :: k < i ==> SectionAccepted(SectionOf(c, h, k))
  }

  /** Why a container with readable headers is refused. */
  ghost predicate BodyRefuted(c: seq<byte>, h: Headers, e: EofError)
    requires Parsed(c, h)
  {
    if !TypesValid(HeaderOf(c, h).types) then TypesRefuted(HeaderOf(c, h).types, e)
    else exists i: nat :: FirstRefuted(c, h, i, e)
  }

  /** The three checks on one section, in the order the container check runs them. */
  method ValidateSection(s: Section) returns (e: Option<EofError>)
    requires s.Valid() && forall t :: t in s.types ==> TypeOk(t)
    ensures e == None <==> SectionAccepted(s)
    ensures e.Some? ==> SectionRefuted(s, e.value)
  {
    hide InstructionsOk, RjumpsOk, StackOk, Refuted, IsStart, InstructionError;
    var instrError := ValidateInstructions(s);
    if instrError.Some? {
      return instrError;
    }
    CheckedUntruncated(s);
    var rjumpsOk := ValidateRjumpDestinations(s.code);
    if !rjumpsOk {
      return Some(InvalidRjumpDestination);
    }
    var msh := ValidateMaxStackHeight(s);
    if msh.Err? {
      VerdictsExclusive(s, msh.error, s.types[s.index].maxStackHeight);
      return Some(msh.error);
    }
    if msh.value != s.types[s.index].maxStackHeight {
      MaxUnique(s, msh.value, s.types[s.index].maxStackHeight);
      return Some(InvalidMaxStackHeight);
    }
    return None;
  }

  /** The maximum height of a section is determined by its paths. */
  lemma MaxUnique(s: Section, m: int, m': int)
    requires s.Valid() && StackOk(s, m)
    ensures StackOk(s, m') <==> m == m'
  {
    hide Reachable, VisitOk;
  }

  method ValidateEof1(c: seq<byte>) returns (r: Result<Eof1Header>)
    requires |c| >= 3
    ensures r.Ok? <==> exists h :: Accepted(c, h)
    ensures r.Ok? ==> exists h :: Accepted(c, h) && r.value == HeaderOf(c, h)
    ensures ParseHeaders(c).Err? ==> r == Err(ParseHeaders(c).error)
    ensures r.Err? && ParseHeaders(c).Ok? ==> BodyRefuted(c, ParseHeaders(c).value, r.error)
  {
    hide U16, ParseHeaders, StoredOffsets, TypesAt, TypesValid, SectionAccepted, SectionRefuted, TypesRefuted;
    var headers := ValidateEofHeaders(c);
    if headers.Err? {
      return Err(headers.error);
    }
    var h := headers.value;
    assert Parsed(c, h);
    ParsedLayout(c, h);
    var headerSize := HeaderSize(|h.codeSizes|);
    var types := ValidateTypes(c, headerSize, h.typeSize);
    assert h.typeSize / 4 == |h.codeSizes|;
    if types.Err? {
      return Err(types.error);
    }
    var codeOffsets := AccumulateOffsets(h);
    var header := Eof1Header(c[2], h.codeSizes, codeOffsets, h.dataSize, types.value);
    assert header == HeaderOf(c, h);
    var i := 0;
    while i < |header.codeSizes|
      invariant 0 <= i <= |header.codeSizes|
      invariant forall k: nat :: k < i ==> SectionAccepted(SectionOf(c, h, k))
    {
      SectionShape(c, h, i);
      OffsetInside(c, h, i);
      TypesAllOk(types.value);
      var error := ValidateSection(Section(GetCode(c, header, i), i, header.types, header.dataSize));
      assert Section(GetCode(c, header, i), i, header.types, header.dataSize) == SectionOf(c, h, i);
      if error.Some? {
        assert FirstRefuted(c, h, i, error.value);
        return Err(error.value);
      }
      i := i + 1;
    }
    assert Accepted(c, h);
    return Ok(header);
  }

  lemma OffsetInside(c: seq<byte>, h: Headers, i: nat)
    requires Parsed(c, h) && i < |h.codeSizes|
    ensures StoredOffsets(h)[i] <= |c|
  {
    SectionLayout(c, h, i);
  }

  lemma TypesAllOk(types: seq<EofCodeType>)
    requires TypesValid(types)
    ensures forall t :: t in types ==> TypeOk(t)
  {
  }

  /** `is_eof_container` and version 1: what `validate_eof` requires before parsing. */
  predicate HasEof1Prefix(c: seq<byte>) {
    |c| >= 3 && c[0] == 0xef && c[1] == 0x00 && c[2] == 1
  }

  /** `validate_eof`: version 1 only, and only from Prague on. */
  method ValidateEof(rev: Revision, c: seq<byte>) returns (e: Option<EofError>)
    ensures e == None <==> rev == Prague && HasEof1Prefix(c) && exists h :: Accepted(c, h)
    ensures var isEof := |c| > 1 && c[0] == 0xef && c[1] == 0x00;
      && (!isEof ==> e == Some(InvalidPrefix))
      && (isEof && !(HasEof1Prefix(c) && rev == Prague) ==> e == Some(VersionUnknown))
      && (HasEof1Prefix(c) && rev == Prague && e.Some? ==>
            match ParseHeaders(c)
            case Err(error) => e.value == error
            case Ok(h) => BodyRefuted(c, h, e.value))
  {
    hide Accepted, BodyRefuted, ParseHeaders;
    if !(|c| > 1 && c[0] == 0xef && c[1] == 0x00) {
      return Some(InvalidPrefix);
    }
    var version: byte := if |c| >= 3 && c[0] == 0xef && c[1] == 0x00 then c[2] else 0;
    if version == 1 {
      if Order(rev) < Order(Prague) {
        return Some(VersionUnknown);
      }
      var header := ValidateEof1(c);
      if header.Err? {
        return Some(header.error);
      }
      return None;
    }
    return Some(VersionUnknown);
  }

  // ---------------------------------------------------------------- reading back an accepted header

  /** The loop heads of the reader: before each section header, and at the terminator. */
  ghost predicate ReaderAt(c: seq<byte>, h: Headers, it: nat, typeSizes: seq<nat>, codeSizes: seq<nat>,
          dataSizes: seq<nat>) {
    var n := |h.codeSizes|;
    || (it == 3 && typeSizes == [] && codeSizes == [] && dataSizes == [])
    || (it == 6 && typeSizes == [h.typeSize] && codeSizes == [] && dataSizes == [])
    || (it == 9 + 2 * n && typeSizes == [h.typeSize] && codeSizes == h.codeSizes && dataSizes == [])
    || (it == 12 + 2 * n && typeSizes == [h.typeSize] && codeSizes == h.codeSizes && dataSizes == [h.dataSize])
  }

  /** The section headers of an accepted container, at the positions the reader visits. */
  lemma ParsedPositions(c: seq<byte>, h: Headers)
    requires Parsed(c, h)
    ensures var n := |h.codeSizes|;
      && |c| > 12 + 2 * n && 0 < n <= CODE_SECTION_NUMBER_LIMIT
      && c[3] == TYPE_SECTION && U16(c, 4) == h.typeSize
      && c[6] == CODE_SECTION && U16(c, 7) == n && ParseSizes(c, 9, n) == Ok(h.codeSizes)
      && c[9 + 2 * n] == DATA_SECTION && U16(c, 10 + 2 * n) == h.dataSize
      && c[12 + 2 * n] == TERMINATOR
  {
    hide U16, Sum, ParseSizes, BodiesSize;
  }

  method ReadTypes(c: seq<byte>, headerSize: nat, typeSectionSize: nat) returns (types: seq<EofCodeType>)
    requires typeSectionSize % 4 == 0 && headerSize + typeSectionSize <= |c|
    ensures types == TypesAt(c, headerSize, typeSectionSize / 4)
  {
    hide U16;
    types := [];
    ghost var all := TypesAt(c, headerSize, typeSectionSize / 4);
    var typeOffset := headerSize;
    while typeOffset < headerSize + typeSectionSize
      invariant headerSize <= typeOffset <= headerSize + typeSectionSize && (typeOffset - headerSize) % 4 == 0
      invariant types == all[..(typeOffset - headerSize) / 4]
    {
      types := types + [ReadType(c, typeOffset)];
      typeOffset := typeOffset + 4;
    }
  }

  /** Trusts the format and checks nothing, yet reads inside the container and returns the validator's header. */
  method ReadValidEof1Header(c: seq<byte>) returns (header: Eof1Header)
    requires |c| >= 3 && ParseHeaders(c).Ok?
    ensures header == HeaderOf(c, ParseHeaders(c).value)
  {
    hide U16, ParseHeaders, ParseSizes, StoredOffsets, TypesAt;
    ghost var h := ParseHeaders(c).value;
    ParsedPositions(c, h);
    ParsedLayout(c, h);
    var typeSizes: seq<nat>, codeSizes: seq<nat>, dataSizes: seq<nat> := [], [], [];
    var it := 3;
    while c[it] != TERMINATOR
      invariant ReaderAt(c, h, it, typeSizes, codeSizes, dataSizes)
      decreases |c| - it
    {
      var sectionId := c[it];
      it := it + 1;
      if sectionId == CODE_SECTION {
        var codeSectionNum := U16(c, it);
        it := it + 2;
        var i := 0;
        while i < codeSectionNum
          invariant 0 <= i <= codeSectionNum && it == 9 + 2 * i
          invariant codeSizes == h.codeSizes[..i]
        {
          SizeAt(c, 9, h.codeSizes, i);
          codeSizes := codeSizes + [U16(c, it)];
          it := it + 2;
          i := i + 1;
        }
      } else {
        var sectionSize := U16(c, it);
        it := it + 2;
        if sectionId == TYPE_SECTION {
          typeSizes := typeSizes + [sectionSize];
        } else {
          dataSizes := dataSizes + [sectionSize];
        }
      }
    }
    var sizes := Headers(typeSizes[0], codeSizes, dataSizes[0]);
    var headerSize := HeaderSize(|codeSizes|);
    var types := ReadTypes(c, headerSize, typeSizes[0]);
    var codeOffsets := AccumulateOffsets(sizes);
    header := Eof1Header(c[2], codeSizes, codeOffsets, dataSizes[0], types);
  }

  lemma {:induction false} SizeAt(c: seq<byte>, it: nat, sizes: seq<nat>, i: nat)
    requires i < |sizes| && ParseSizes(c, it, |sizes|) == Ok(sizes)
    ensures it + 2 * i + 1 < |c| && U16(c, it + 2 * i) == sizes[i]
    decreases i
  {
    hide U16;
    if i > 0 {
      assert ParseSizes(c, it + 2, |sizes| - 1) == Ok(sizes[1..]);
      SizeAt(c, it + 2, sizes[1..], i - 1);
    }
  }

  // ---------------------------------------------------------------- where execution looks for sections

  /**
   * The executable code starts at the first stored offset, and CALLF adds the difference of two stored
   * offsets: it enters section i exactly where `get_code` took the bytes that were validated. This holds for
   * containers of any size, although the stored offsets may have wrapped around.
   */
  lemma CalleeIsSection(c: seq<byte>, h: Headers, i: nat)
    requires Parsed(c, h) && i < |h.codeSizes|
    ensures var offsets := HeaderOf(c, h).codeOffsets;
      var entry: int := offsets[0] + (offsets[i] as int - offsets[0] as int);
      && 0 <= entry && entry + h.codeSizes[i] <= |c|
      && c[entry..entry + h.codeSizes[i]] == SectionOf(c, h, i).code
  {
    hide U16, ParseHeaders, PrintHeaders, TypesAt, TrueOffset;
    SectionLayout(c, h, i);
  }
}
