/** Segment commands as bytes: the record a 64-bit segment command stands for. */
module SegmentTable {
  import opened Bytes
  import opened LoadCommands
  import opened AppendImage
  import opened MachOLayout
  import opened Growth

  const SEG_HEADER: nat := 72
  const SECT_SIZE: nat := 80

  /** A name of at most sixteen bytes, up to its first NUL. */
  function FixedName(field: seq<byte>): string {
    seq(NulAt(field, 0), (i: nat) requires i < NulAt(field, 0) => field[i] as char)
  }

  function SectionOf(s: seq<byte>): Section
    requires |s| == SECT_SIZE
  {
    Section(FixedName(s[..16]), FixedName(s[16..32]), U64(s, 32), U64(s, 40), U32(s, 48), U32(s, 64))
  }

  function SegmentRecord(h: seq<byte>): Segment
    requires |h| == SEG_HEADER
  {
    Segment(FixedName(h[8..24]), U64(h, 24), U64(h, 32), U64(h, 40), U64(h, 48))
  }

  /** The command has room for its header and the sections it counts. */
  predicate TableFits(c: seq<byte>) { |c| >= SEG_HEADER && SEG_HEADER + U32(c, 64) * SECT_SIZE <= |c| }

  function Slot(i: nat): nat { SEG_HEADER + i * SECT_SIZE }

  lemma SlotFits(c: seq<byte>, i: nat, n: nat)
    requires i < n && SEG_HEADER + n * SECT_SIZE <= |c|
    ensures Slot(i) + SECT_SIZE == Slot(i + 1) <= |c|
  {}

  function SectionsFrom(c: seq<byte>, i: nat, n: nat): (r: seq<Section>)
    requires i <= n && SEG_HEADER + n * SECT_SIZE <= |c|
    ensures |r| == n - i
    decreases n - i
  {
    if i == n then []
    else
      SlotFits(c, i, n);
      [SectionOf(c[Slot(i)..Slot(i) + SECT_SIZE])] + SectionsFrom(c, i + 1, n)
  }

  function SegmentOf(c: seq<byte>): SegmentCommand
    requires TableFits(c)
  {
    SegmentCommand(SegmentRecord(c[..SEG_HEADER]), SectionsFrom(c, 0, U32(c, 64)))
  }

  /** `parse_segment_64`: the segment and its sections, or nothing when they do not fit. */
  method ParseSegment(c: seq<byte>) returns (r: Option<SegmentCommand>)
    ensures r.Some? <==> TableFits(c)
    ensures r.Some? ==> r.value == SegmentOf(c)
  {
    if |c| < SEG_HEADER {
      return None;
    }
    var seg := Segment(FixedName(c[8..24]), U64(c, 24), U64(c, 32), U64(c, 40), U64(c, 48));
    HeaderRecord(c);
    var nsects := U32(c, 64);
    if |c| < SEG_HEADER + nsects * SECT_SIZE {
      return None;
    }
    var sections: seq<Section> := [];
    var i := 0;
    while i < nsects
      invariant i <= nsects && sections + SectionsFrom(c, i, nsects) == SectionsFrom(c, 0, nsects)
    {
      SlotFits(c, i, nsects);
      sections := sections + [SectionOf(c[Slot(i)..Slot(i) + SECT_SIZE])];
      i := i + 1;
    }
    return Some(SegmentCommand(seg, sections));
  }

  lemma HeaderRecord(c: seq<byte>)
    requires |c| >= SEG_HEADER
    ensures SegmentRecord(c[..SEG_HEADER]) == Segment(FixedName(c[8..24]), U64(c, 24), U64(c, 32), U64(c, 40), U64(c, 48))
  {
    var h := c[..SEG_HEADER];
    assert h[8..24] == c[8..24] && h[24..32] == c[24..32] && h[32..40] == c[32..40];
    assert h[40..48] == c[40..48] && h[48..56] == c[48..56];
  }

  predicate IsSegment(c: seq<byte>) { TypeOf(c) == LC_SEGMENT_64 && TableFits(c) }

  /** The segments of a command list, in order. */
  function SegmentsOf(cmds: seq<seq<byte>>): seq<SegmentCommand> {
    if cmds == [] then []
    else (if IsSegment(cmds[0]) then [SegmentOf(cmds[0])] else []) + SegmentsOf(cmds[1..])
  }

  /** Every segment command has room for its sections, as the parser demands. */
  ghost predicate Tables(cmds: seq<seq<byte>>) {
    forall i :: 0 <= i < |cmds| && TypeOf(cmds[i]) == LC_SEGMENT_64 ==> TableFits(cmds[i])
  }
}
