/** Building an export trie and parsing one back. */
module ExportTrie {
  import opened Bytes
  import opened NameOrder
  import opened TrieTree
  import opened TrieListing
  import Uleb128

  datatype TrieError =
    | NodePastEnd | TerminalPastEnd | MissingChildCount
    | BadUleb(uleb: Uleb128.UlebError) | MissingNul | NotUtf8

  // ----- reading one node -----------------------------------------------

  /** The NUL-terminated string at `at` and the cursor behind it. */
  function CString(bytes: seq<byte>, at: nat): Result<(Name, nat), TrieError> {
    if at > |bytes| || NulAt(bytes, at) == |bytes| then Err(MissingNul)
    else
      var end := NulAt(bytes, at);
      if ValidUtf8(bytes[at..end]) then Ok((bytes[at..end], end + 1)) else Err(NotUtf8)
  }

  function Uleb(bytes: seq<byte>, at: nat): Result<(u64, nat), TrieError> {
    match Uleb128.Read(bytes, at, 0, 0)
    case Ok(v) => Ok(v)
    case Err(e) => Err(BadUleb(e))
  }

  /** Flags and address of a non-empty terminal. A re-export (0x08) carries an ordinal
      and a name and reads as address 0; a stub-and-resolver (0x10) reads as its stub. */
  function Terminal(bytes: seq<byte>, at: nat): Result<TerminalInfo, TrieError> {
    match Uleb(bytes, at)
    case Err(e) => Err(e)
    case Ok((flags, at1)) =>
      if flags / 8 % 2 == 1 then
        match Uleb(bytes, at1)
        case Err(e) => Err(e)
        case Ok((_, at2)) =>
          (match CString(bytes, at2)
           case Err(e) => Err(e)
           case Ok(_) => Ok(TerminalInfo(flags, 0)))
      else
        match Uleb(bytes, at1)
        case Err(e) => Err(e)
        case Ok((address, at2)) =>
          if flags / 16 % 2 == 1 then
            (match Uleb(bytes, at2)
             case Err(e) => Err(e)
             case Ok(_) => Ok(TerminalInfo(flags, address)))
          else Ok(TerminalInfo(flags, address))
  }

  /** `count` child records from `at` on: label and node offset. */
  function Children(bytes: seq<byte>, at: nat, count: nat): Result<seq<(Name, nat)>, TrieError>
    decreases count
  {
    if count == 0 then Ok([])
    else
      match CString(bytes, at)
      case Err(e) => Err(e)
      case Ok((text, at1)) =>
        match Uleb(bytes, at1)
        case Err(e) => Err(e)
        case Ok((offset, at2)) =>
          match Children(bytes, at2, count - 1)
          case Err(e) => Err(e)
          case Ok(rest) => Ok([(text, offset)] + rest)
  }

  datatype NodeRecord = NodeRecord(terminal: Option<TerminalInfo>, children: seq<(Name, nat)>)

  function ReadNode(bytes: seq<byte>, off: nat): Result<NodeRecord, TrieError> {
    if off >= |bytes| then Err(NodePastEnd)
    else
      match Uleb(bytes, off)
      case Err(e) => Err(e)
      case Ok((size, at)) =>
        if at + size > |bytes| then Err(TerminalPastEnd)
        else
          match (if size > 0 then Terminal(bytes, at) else Ok(TerminalInfo(0, 0)))
          case Err(e) => Err(e)
          case Ok(info) =>
            if at + size >= |bytes| then Err(MissingChildCount)
            else
              match Children(bytes, at + size + 1, bytes[at + size])
              case Err(e) => Err(e)
              case Ok(children) => Ok(NodeRecord(if size > 0 then Some(info) else None, children))
  }

  ghost function Prepend(children: seq<(Name, nat)>, r: Result<seq<(Name, nat)>, TrieError>): Result<seq<(Name, nat)>, TrieError> {
    match r
    case Ok(rest) => Ok(children + rest)
    case Err(e) => Err(e)
  }

  // ----- the parser -----------------------------------------------------

  /** What a bounded number of parser rounds comes to. */
  datatype Outcome = Done(exports: seq<Export>) | Failed(error: TrieError) | StillRunning

  /** Children stacked so that the first is popped first. */
  function Stacked(prefix: Name, children: seq<(Name, nat)>): seq<(nat, Name)> {
    if children == [] then []
    else Stacked(prefix, children[1..]) + [(children[0].1, prefix + children[0].0)]
  }

  type NodeReader = nat -> Result<NodeRecord, TrieError>

  function ReaderOf(bytes: seq<byte>): NodeReader {
    (off: nat) => ReadNode(bytes, off)
  }

  /** The parser's loop, from a stack of (node offset, name so far) with its top last. */
  function Run(read: NodeReader, stack: seq<(nat, Name)>, out: seq<Export>, rounds: nat): Outcome
    decreases rounds
  {
    if stack == [] then Done(out)
    else if rounds == 0 then StillRunning
    else
      var (off, prefix) := stack[|stack| - 1];
      match read(off)
      case Err(e) => Failed(e)
      case Ok(node) =>
        Run(read, stack[..|stack| - 1] + Stacked(prefix, node.children), AddTerminal(out, prefix, node.terminal), rounds - 1)
  }

  function AddTerminal(out: seq<Export>, prefix: Name, terminal: Option<TerminalInfo>): seq<Export> {
    match terminal
    case None => out
    case Some(info) => out + [Export(prefix, info)]
  }

  lemma RunStep(read: NodeReader, stack: seq<(nat, Name)>, off: nat, prefix: Name, out: seq<Export>, rounds: nat)
    ensures read(off).Err? ==>
              Run(read, stack + [(off, prefix)], out, rounds + 1) == Failed(read(off).error)
    ensures read(off).Ok? ==>
              Run(read, stack + [(off, prefix)], out, rounds + 1) ==
              Run(read, stack + Stacked(prefix, read(off).value.children), AddTerminal(out, prefix, read(off).value.terminal), rounds)
  {
    var s := stack + [(off, prefix)];
    assert s[..|s| - 1] == stack && s[|s| - 1] == (off, prefix);
  }

  lemma RunFinishes(read: NodeReader, out: seq<Export>, rounds: nat)
    ensures Run(read, [], out, rounds) == Done(out)
  {}

  lemma RunEnds(read: NodeReader, stack: seq<(nat, Name)>, out: seq<Export>)
    requires stack != []
    ensures Run(read, stack, out, 0) == StillRunning
  {}

  function ParseOutcome(bytes: seq<byte>, rounds: nat): Outcome {
    if bytes == [] then Done([]) else Run(ReaderOf(bytes), [(0, [])], [], rounds)
  }

  method ReadCString(bytes: seq<byte>, cursor: nat) returns (r: Result<(Name, nat), TrieError>)
    ensures r == CString(bytes, cursor)
  {
    var end := cursor;
    while end < |bytes| && bytes[end] != 0
      invariant cursor <= |bytes| ==> cursor <= end <= |bytes| && NulAt(bytes, cursor) == NulAt(bytes, end)
      invariant cursor > |bytes| ==> end == cursor
    {
      end := end + 1;
    }
    if end >= |bytes| {
      return Err(MissingNul);
    }
    if !ValidUtf8(bytes[cursor..end]) {
      return Err(NotUtf8);
    }
    return Ok((bytes[cursor..end], end + 1));
  }

  method ReadNodeRecord(bytes: seq<byte>, off: nat) returns (r: Result<NodeRecord, TrieError>)
    ensures r == ReadNode(bytes, off)
  {
    if off >= |bytes| {
      return Err(NodePastEnd);
    }
    var size := Uleb128.ReadUleb128(bytes, off);
    if size.Err? {
      return Err(BadUleb(size.error));
    }
    var cursor := size.value.1;
    var afterTerminal := cursor + size.value.0;
    if afterTerminal > |bytes| {
      return Err(TerminalPastEnd);
    }
    var terminal: Option<TerminalInfo> := None;
    if size.value.0 > 0 {
      var info := Terminal(bytes, cursor);
      if info.Err? {
        return Err(info.error);
      }
      terminal := Some(info.value);
    }
    cursor := afterTerminal;
    if cursor >= |bytes| {
      return Err(MissingChildCount);
    }
    var children := ReadChildren(bytes, cursor + 1, bytes[cursor]);
    if children.Err? {
      return Err(children.error);
    }
    return Ok(NodeRecord(terminal, children.value));
  }

  method ReadChildren(bytes: seq<byte>, at: nat, count: nat) returns (r: Result<seq<(Name, nat)>, TrieError>)
    ensures r == Children(bytes, at, count)
  {
    var cursor := at;
    var children: seq<(Name, nat)> := [];
    ghost var all := Children(bytes, at, count);
    if all.Ok? {
      assert [] + all.value == all.value;
    }
    for i := 0 to count
      invariant Children(bytes, at, count) == Prepend(children, Children(bytes, cursor, count - i))
    {
      var text := ReadCString(bytes, cursor);
      if text.Err? {
        return Err(text.error);
      }
      var offset := Uleb128.ReadUleb128(bytes, text.value.1);
      if offset.Err? {
        return Err(BadUleb(offset.error));
      }
      ghost var rest := Children(bytes, offset.value.1, count - i - 1);
      if rest.Ok? {
        assert children + [(text.value.0, offset.value.0)] + rest.value == children + ([(text.value.0, offset.value.0)] + rest.value);
      }
      children := children + [(text.value.0, offset.value.0)];
      cursor := offset.value.1;
    }
    assert children + [] == children;
    return Ok(children);
  }

  method PushChildren(stack: seq<(nat, Name)>, prefix: Name, children: seq<(Name, nat)>) returns (r: seq<(nat, Name)>)
    ensures r == stack + Stacked(prefix, children)
  {
    r := stack;
    var k := |children|;
    while k > 0
      invariant 0 <= k <= |children|
      invariant r == stack + Stacked(prefix, children[k..])
    {
      k := k - 1;
      assert children[k..][1..] == children[k + 1..];
      r := r + [(children[k].1, prefix + children[k].0)];
    }
    assert children[0..] == children;
  }

  /** `parse`, for as many nodes as `rounds` allows. */
  method Parse(bytes: seq<byte>, rounds: nat) returns (r: Outcome)
    ensures r == ParseOutcome(bytes, rounds)
  {
    if bytes == [] {
      return Done([]);
    }
    hide ReadNode, Run, Stacked, AddTerminal;
    var out: seq<Export> := [];
    var stack: seq<(nat, Name)> := [(0, [])];
    var left := rounds;
    ghost var read := ReaderOf(bytes);
    while stack != []
      invariant Run(read, stack, out, left) == ParseOutcome(bytes, rounds)
      decreases left
    {
      if left == 0 {
        RunEnds(read, stack, out);
        return StillRunning;
      }
      var nodeOff, prefix := stack[|stack| - 1].0, stack[|stack| - 1].1;
      ghost var before := stack;
      stack := stack[..|stack| - 1];
      assert before == stack + [(nodeOff, prefix)];
      RunStep(read, stack, nodeOff, prefix, out, left - 1);
      var node := ReadNodeRecord(bytes, nodeOff);
      if node.Err? {
        return Failed(node.error);
      }
      out := AddTerminal(out, prefix, node.value.terminal);
      stack := PushChildren(stack, prefix, node.value.children);
      left := left - 1;
    }
    RunFinishes(read, out, left);
    return Done(out);
  }

  // ----- a blob that is not a tree --------------------------------------

  /** A node that is its own only child keeps the parser running, however many rounds pass. */
  lemma {:induction false} LoopsForever(read: NodeReader, off: nat, text: Name, prefix: Name, out: seq<Export>, rounds: nat)
    requires read(off) == Ok(NodeRecord(None, [(text, off)]))
    ensures Run(read, [(off, prefix)], out, rounds) == StillRunning
    decreases rounds
  {
    if rounds > 0 {
      RunStep(read, [], off, prefix, out, rounds - 1);
      assert [] + [(off, prefix)] == [(off, prefix)];
      assert Stacked(prefix, [(text, off)]) == [(off, prefix + text)];
      LoopsForever(read, off, text, prefix + text, out, rounds - 1);
    }
  }

  lemma OnlyChild(bytes: seq<byte>, at: nat, text: Name, at1: nat, offset: u64, at2: nat)
    requires CString(bytes, at) == Ok((text, at1)) && Uleb(bytes, at1) == Ok((offset, at2))
    ensures Children(bytes, at, 1) == Ok([(text, offset)])
  {
    assert Children(bytes, at2, 0) == Ok([]);
    assert [(text, offset as nat)] + [] == [(text, offset)];
  }

  /** Five bytes on which `parse` never returns. */
  lemma CyclicBlob(rounds: nat)
    ensures ParseOutcome([0, 1, 0x61, 0, 0], rounds) == StillRunning
  {
    var bytes: seq<byte> := [0, 1, 0x61, 0, 0];
    assert Uleb128.Pow128(0) == 1;
    assert Uleb(bytes, 0) == Ok((0, 1)) && Uleb(bytes, 4) == Ok((0, 5));
    assert NulAt(bytes, 2) == NulAt(bytes, 3) == 3;
    assert bytes[2..3] == [0x61] && ValidUtf8([0x61]);
    assert CString(bytes, 2) == Ok(([0x61], 4));
    OnlyChild(bytes, 2, [0x61], 4, 0, 5);
    assert ReadNode(bytes, 0) == Ok(NodeRecord(None, [([0x61], 0)]));
    LoopsForever(ReaderOf(bytes), 0, [0x61], [], [], rounds);
  }
}
