/** The Mach-O export trie: what its bytes mean, and the walk that looks a symbol up. */
module ExportTrie {
  import opened Bytes
  import opened Options
  import opened Leb128

  // ----- The abstract trie -----

  datatype Node = Node(payload: seq<byte>, edges: seq<Edge>)
  datatype Edge = Edge(name: seq<byte>, child: Node)

  /** The edges chosen by `path` spell s and end at a node with this payload. */
  ghost predicate Denotes(n: Node, path: seq<nat>, s: seq<byte>, payload: seq<byte>)
    decreases |path|
  {
    if path == [] then s == [] && payload == n.payload && payload != []
    else
      path[0] < |n.edges|
      && (var e := n.edges[path[0]];
          |e.name| <= |s| && s[..|e.name|] == e.name && Denotes(e.child, path[1..], s[|e.name|..], payload))
  }

  // ----- Its bytes -----

  /** The zero byte that ends the string at p. */
  function StringEnd(b: seq<byte>, p: nat): (r: Option<nat>)
    ensures r.Some? ==> p <= r.value < |b| && b[r.value] == 0 && forall i :: p <= i < r.value ==> b[i] != 0
    decreases |b| - p
  {
    if p >= |b| then None else if b[p] == 0 then Some(p) else StringEnd(b, p + 1)
  }

  ghost predicate Encodes(b: seq<byte>, o: nat, n: Node)
    decreases n, 1, 0
  {
    var size := Uleb(b, o);
    && size.Some? && size.value.value == |n.payload|
    && (var children := size.value.next + |n.payload|;
        && children < |b| && b[size.value.next..children] == n.payload
        && b[children] == |n.edges|
        && EdgesAt(b, children + 1, n, 0))
  }

  /** Edges i and up of n are stored from p on. */
  ghost predicate EdgesAt(b: seq<byte>, p: nat, n: Node, i: nat)
    decreases n, 0, |n.edges| - i
  {
    i >= |n.edges| ||
    (var e := n.edges[i];
     var end := StringEnd(b, p);
     && end.Some? && end.value == p + |e.name| && b[p..end.value] == e.name && e.name != []
     && (forall j {:trigger n.edges[j]} :: 0 <= j < |n.edges| && j != i && n.edges[j].name != [] ==>
       n.edges[j].name[0] != e.name[0])
     && (var offset := Uleb(b, end.value + 1);
         && offset.Some? && 0 < offset.value.value < |b|
         && Encodes(b, offset.value.value, e.child)
         && EdgesAt(b, offset.value.next, n, i + 1)))
  }

  /** Bytes determine the node. */
  lemma {:induction false} EncodesUnique(b: seq<byte>, o: nat, n: Node, n': Node)
    requires Encodes(b, o, n) && Encodes(b, o, n')
    ensures n == n'
    decreases n, 1, 0
  {
    hide Uleb;
    var size := Uleb(b, o);
    EdgesUnique(b, size.value.next + |n.payload| + 1, n, n', 0);
    assert n.edges == n'.edges;
  }

  lemma {:induction false} EdgesUnique(b: seq<byte>, p: nat, n: Node, n': Node, i: nat)
    requires EdgesAt(b, p, n, i) && EdgesAt(b, p, n', i) && |n.edges| == |n'.edges|
    ensures forall j :: i <= j < |n.edges| ==> n.edges[j] == n'.edges[j]
    decreases n, 0, |n.edges| - i
  {
    hide Uleb;
    if i < |n.edges| {
      var offset := Uleb(b, StringEnd(b, p).value + 1);
      EncodesUnique(b, offset.value.value, n.edges[i].child, n'.edges[i].child);
      EdgesUnique(b, offset.value.next, n, n', i + 1);
    }
  }

  function Height(n: Node): (h: nat)
    decreases n, 1, 0
  {
    1 + TallestEdge(n, 0)
  }

  function TallestEdge(n: Node, i: nat): (h: nat)
    decreases n, 0, |n.edges| - i
  {
    if i >= |n.edges| then 0
    else
      var rest := TallestEdge(n, i + 1);
      if Height(n.edges[i].child) > rest then Height(n.edges[i].child) else rest
  }

  lemma {:induction false} ChildLower(n: Node, i: nat, k: nat)
    requires i <= k < |n.edges|
    ensures Height(n.edges[k].child) <= TallestEdge(n, i)
    decreases k - i
  {
    if i < k {
      ChildLower(n, i + 1, k);
    }
  }

  // ----- The walk -----

  datatype Step = Matched(offset: nat, rest: seq<byte>) | NoChild | Stop | Overrun

  /** Skipping a LEB128 number without reading it. */
  function SkipLeb(b: seq<byte>, p: nat): (r: Option<nat>)
    ensures r.Some? ==> p < r.value <= |b|
    decreases |b| - p
  {
    if p >= |b| then None else if b[p] < 0x80 then Some(p + 1) else SkipLeb(b, p + 1)
  }

  /** The child to go to: the first whose edge is a prefix of what is left of the symbol. */
  function ChooseChild(b: seq<byte>, p: nat, remaining: nat, symbol: seq<byte>): (s: Step)
    decreases remaining
  {
    if remaining == 0 then NoChild
    else
      var end := StringEnd(b, p);
      if end.None? then Overrun
      else if |symbol| >= end.value - p && symbol[..end.value - p] == b[p..end.value] then
        var offset := Uleb(b, end.value + 1);
        if offset.None? then Overrun
        else if offset.value.value == 0 || offset.value.value > |b| then Stop
        else Matched(offset.value.value, symbol[end.value - p..])
      else
        var next := SkipLeb(b, end.value + 1);
        if next.None? then Overrun else ChooseChild(b, next.value, remaining - 1, symbol)
  }

  /** What a walk returns: the position of the payload, nothing, or a read outside the trie. */
  datatype Outcome = Found(at: nat) | NotFound | Fault

  /** The trie lies in memory. */
  predicate Mapped(b: seq<byte>, start: nat) { start + |b| < TWO64 }

  /** Where the children are looked for, counted from the start of the trie: the pointer is
      moved by a terminal size of up to 64 bits, and wraps. */
  function ChildrenAt(start: nat, at: nat): (children: int) { Low64(start + at) - start }

  lemma ChildrenInside(b: seq<byte>, start: nat, at: nat)
    requires Mapped(b, start) && at <= |b|
    ensures ChildrenAt(start, at) == at
  {
  }

  /** From the node at p, having visited these offsets, of which 32 bits are kept. */
  function Walk(b: seq<byte>, start: nat, p: nat, symbol: seq<byte>, visited: seq<uint32>): (r: Outcome)
    decreases 128 - |visited|
  {
    if p >= |b| then NotFound
    else
      var size := Uleb(b, p);
      if size.None? then Fault
      else if symbol == [] && size.value.value != 0 then Found(size.value.next)
      else
        var children := ChildrenAt(start, size.value.next + size.value.value);
        if children > |b| then NotFound
        else if children < 0 || children == |b| then Fault
        else match ChooseChild(b, children + 1, b[children], symbol)
          case Overrun => Fault
          case Stop => NotFound
          case NoChild => NotFound
          case Matched(offset, rest) =>
            if offset in visited || |visited| + 1 >= 128 then NotFound
            else Walk(b, start, offset, rest, visited + [Low32(offset)])
  }

  // ----- Meaning of the walk on well-formed tries -----

  lemma {:induction false} SkipIsRead(b: seq<byte>, p: nat, bit: nat, scale: nat)
    requires Groups(b, p, bit, scale).Some?
    ensures SkipLeb(b, p) == Some(Groups(b, p, bit, scale).value.next)
    decreases |b| - p
  {
    if b[p] >= 0x80 {
      SkipIsRead(b, p + 1, if bit > 63 then bit else bit + 7, if bit > 63 then scale else scale * 0x80);
    }
  }

  predicate Fits(n: Node, k: nat, symbol: seq<byte>)
    requires k < |n.edges|
  {
    |n.edges[k].name| <= |symbol| && symbol[..|n.edges[k].name|] == n.edges[k].name
  }

  ghost predicate GoesTo(b: seq<byte>, n: Node, k: nat, symbol: seq<byte>, s: Step)
    requires k < |n.edges|
  {
    && Fits(n, k, symbol) && n.edges[k].name != [] && s.Matched? && s.rest == symbol[|n.edges[k].name|..]
    && 0 < s.offset < |b| && Encodes(b, s.offset, n.edges[k].child)
  }

  /** The loop over the children finds the edge that fits, if there is one. */
  lemma {:induction false} ChooseFinds(b: seq<byte>, p: nat, n: Node, i: nat, symbol: seq<byte>)
    requires EdgesAt(b, p, n, i) && i <= |n.edges|
    ensures var s := ChooseChild(b, p, |n.edges| - i, symbol);
      if s.NoChild? then forall k :: i <= k < |n.edges| ==> !Fits(n, k, symbol)
      else exists k :: i <= k < |n.edges| && GoesTo(b, n, k, symbol, s)
    decreases |n.edges| - i
  {
    hide Encodes, Groups, SkipLeb;
    if i < |n.edges| {
      var end := StringEnd(b, p);
      var offset := Uleb(b, end.value + 1);
      var s := ChooseChild(b, p, |n.edges| - i, symbol);
      if Fits(n, i, symbol) {
        assert GoesTo(b, n, i, symbol, s);
      } else {
        SkipIsRead(b, end.value + 1, 0, 1);
        ChooseFinds(b, offset.value.next, n, i + 1, symbol);
        assert s == ChooseChild(b, offset.value.next, |n.edges| - (i + 1), symbol);
        if !s.NoChild? {
          var k :| i + 1 <= k < |n.edges| && GoesTo(b, n, k, symbol, s);
        }
      }
    }
  }

  /** Two edges that fit are one. */
  lemma {:induction false} OneEdgeFits(b: seq<byte>, p: nat, n: Node, i: nat, j: nat, k: nat, symbol: seq<byte>)
    requires EdgesAt(b, p, n, i) && i <= j < |n.edges| && k < |n.edges|
    requires Fits(n, j, symbol) && Fits(n, k, symbol) && n.edges[k].name != []
    ensures j == k
    decreases j - i
  {
    hide Encodes, Uleb;
    if i < j {
      OneEdgeFits(b, Uleb(b, StringEnd(b, p).value + 1).value.next, n, i + 1, j, k, symbol);
    } else {
      var name, name' := n.edges[j].name, n.edges[k].name;
      assert name[0] == symbol[..|name|][0] == symbol[0];
      assert name'[0] == symbol[..|name'|][0] == symbol[0];
    }
  }

  /** The size of a trie is a 32-bit field. */
  predicate Addressable(b: seq<byte>) { |b| < 0x1_0000_0000 }

  /** The nodes visited on the way down, none lower than n. */
  ghost predicate Trail(b: seq<byte>, visited: seq<uint32>, trail: seq<Node>, n: Node)
  {
    |trail| == |visited| && forall i :: 0 <= i < |visited| ==>
      Encodes(b, visited[i], trail[i]) && Height(trail[i]) >= Height(n)
  }

  /** A child was never visited before, so the cycle test does not fire. */
  lemma NotVisited(b: seq<byte>, visited: seq<uint32>, trail: seq<Node>, n: Node, k: nat, offset: nat)
    requires Trail(b, visited, trail, n) && k < |n.edges| && Encodes(b, offset, n.edges[k].child)
    requires offset < |b| && Addressable(b)
    ensures offset !in visited && Trail(b, visited + [Low32(offset)], trail + [n.edges[k].child], n.edges[k].child)
  {
    hide Encodes;
    ChildLower(n, 0, k);
    if offset in visited {
      var i :| 0 <= i < |visited| && visited[i] == offset;
      EncodesUnique(b, offset, trail[i], n.edges[k].child);
      assert false;
    }
  }

  lemma NodeParts(b: seq<byte>, o: nat, n: Node)
    requires Encodes(b, o, n)
    ensures o < |b| && Uleb(b, o).Some? && Uleb(b, o).value.value == |n.payload|
    ensures var children := Uleb(b, o).value.next + |n.payload|;
      && children < |b| && b[children] == |n.edges| && EdgesAt(b, children + 1, n, 0)
      && b[Uleb(b, o).value.next..children] == n.payload
  {
    GroupsNext(b, o, 0, 1);
  }

  /** Complete: a symbol in the abstract map is found, with its payload, exactly when its
      path has at most 126 edges; visited counts the root. */
  lemma {:induction false} WalkComplete(b: seq<byte>, start: nat, o: nat, n: Node, symbol: seq<byte>, path: seq<nat>,
                                        payload: seq<byte>,
                                        visited: seq<uint32>, trail: seq<Node>)
    requires Encodes(b, o, n) && Denotes(n, path, symbol, payload) && Trail(b, visited, trail, n) && |visited| <= 127
    requires Addressable(b) && Mapped(b, start)
    ensures var r := Walk(b, start, o, symbol, visited);
      if |visited| + |path| <= 127 then r.Found? && r.at + |payload| <= |b| && b[r.at..r.at + |payload|] == payload
      else r == NotFound
    decreases |path|
  {
    hide Encodes, EdgesAt, Uleb, ChooseChild;
    NodeParts(b, o, n);
    ChildrenInside(b, start, Uleb(b, o).value.next + |n.payload|);
    if path != [] {
      var children, k := Uleb(b, o).value.next + |n.payload|, path[0];
      ChooseFinds(b, children + 1, n, 0, symbol);
      var s := ChooseChild(b, children + 1, |n.edges|, symbol);
      assert Fits(n, k, symbol);
      var j :| 0 <= j < |n.edges| && GoesTo(b, n, j, symbol, s);
      assert n.edges[k].name != [] by { NameNotEmpty(b, children + 1, n, 0, k); }
      OneEdgeFits(b, children + 1, n, 0, j, k, symbol);
      NotVisited(b, visited, trail, n, k, s.offset);
      if |visited| + 1 < 128 {
        WalkComplete(b, start, s.offset, n.edges[k].child, s.rest, path[1..], payload,
                     visited + [Low32(s.offset)], trail + [n.edges[k].child]);
      }
    }
  }

  lemma {:induction false} NameNotEmpty(b: seq<byte>, p: nat, n: Node, i: nat, k: nat)
    requires EdgesAt(b, p, n, i) && i <= k < |n.edges|
    ensures n.edges[k].name != []
    decreases k - i
  {
    hide Encodes, Uleb;
    if i < k {
      NameNotEmpty(b, Uleb(b, StringEnd(b, p).value + 1).value.next, n, i + 1, k);
    }
  }

  /** Sound: whatever is found is in the abstract map, and nothing outside is read. */
  lemma {:induction false} WalkSound(b: seq<byte>, start: nat, o: nat, n: Node, symbol: seq<byte>, visited: seq<uint32>)
    requires Encodes(b, o, n) && |visited| <= 127 && Mapped(b, start)
    ensures var r := Walk(b, start, o, symbol, visited);
      && r != Fault
      && (r.Found? ==> exists path, payload ::
            Denotes(n, path, symbol, payload) && r.at + |payload| <= |b| && b[r.at..r.at + |payload|] == payload)
    decreases 128 - |visited|
  {
    hide Encodes, EdgesAt, Uleb, ChooseChild;
    NodeParts(b, o, n);
    ChildrenInside(b, start, Uleb(b, o).value.next + |n.payload|);
    var r := Walk(b, start, o, symbol, visited);
    if symbol == [] && n.payload != [] {
      assert Denotes(n, [], symbol, n.payload);
    } else {
      var children := Uleb(b, o).value.next + |n.payload|;
      ChooseFinds(b, children + 1, n, 0, symbol);
      var s := ChooseChild(b, children + 1, |n.edges|, symbol);
      if !s.NoChild? {
        var k :| 0 <= k < |n.edges| && GoesTo(b, n, k, symbol, s);
        if !(s.offset in visited || |visited| + 1 >= 128) {
          WalkSound(b, start, s.offset, n.edges[k].child, s.rest, visited + [Low32(s.offset)]);
          if r.Found? {
            var path, payload :| Denotes(n.edges[k].child, path, s.rest, payload)
              && r.at + |payload| <= |b| && b[r.at..r.at + |payload|] == payload;
            assert ([k] + path)[1..] == path;
            assert Denotes(n, [k] + path, symbol, payload);
          }
        }
      }
    }
  }

  /** The lookup is the abstract map, on symbols reached by at most 126 edges; deeper ones
      are not found. */
  lemma LookupIsExact(b: seq<byte>, start: nat, root: Node, symbol: seq<byte>, path: seq<nat>, payload: seq<byte>)
    requires Encodes(b, 0, root) && Denotes(root, path, symbol, payload)
    requires Addressable(b) && Mapped(b, start)
    ensures var r := Walk(b, start, 0, symbol, [0]);
      && (r.Found? <==> |path| <= 126)
      && (r.Found? ==> r.at + |payload| <= |b| && b[r.at..r.at + |payload|] == payload)
  {
    hide Encodes;
    WalkComplete(b, start, 0, root, symbol, path, payload, [0], [root]);
  }

  lemma LookupFindsNothingElse(b: seq<byte>, start: nat, root: Node, symbol: seq<byte>)
    requires Encodes(b, 0, root) && forall path, payload :: !Denotes(root, path, symbol, payload)
    requires Mapped(b, start)
    ensures Walk(b, start, 0, symbol, [0]) == NotFound
  {
    hide Encodes;
    WalkSound(b, start, 0, root, symbol, [0]);
  }

  // ----- The loops -----

  /** Scanning one edge: where it ends, and whether it is a prefix of the symbol. The
      symbol is not read past the first difference. */
  method ScanEdge(b: seq<byte>, p: nat, symbol: seq<byte>) returns (end: Option<nat>, wrongEdge: bool)
    requires forall i :: 0 <= i < |symbol| ==> symbol[i] != 0
    ensures end == StringEnd(b, p)
    ensures end.Some? ==> (!wrongEdge <==> |symbol| >= end.value - p && symbol[..end.value - p] == b[p..end.value])
  {
    var q: nat, ss: nat := p, 0;
    wrongEdge := false;
    while q < |b| && b[q] != 0
      invariant p <= q && StringEnd(b, p) == StringEnd(b, q)
      invariant q <= |b| || q == p
      invariant !wrongEdge ==> ss == q - p && ss <= |symbol| && (q > p ==> symbol[..ss] == b[p..q])
      invariant wrongEdge ==> exists k :: p <= k < q <= |b| && (k - p >= |symbol| || symbol[k - p] != b[k])
      decreases |b| - q
    {
      if !wrongEdge {
        if ss >= |symbol| || b[q] != symbol[ss] {
          wrongEdge := true;
          assert p <= q < q + 1 <= |b| && (q - p >= |symbol| || symbol[q - p] != b[q]);
        } else {
          assert symbol[..ss + 1] == symbol[..ss] + [symbol[ss]] && b[p..q + 1] == b[p..q] + [b[q]];
        }
        ss := ss + 1;
      }
      q := q + 1;
    }
    if q >= |b| {
      return None, wrongEdge;
    }
    end := Some(q);
    if wrongEdge {
      var k :| p <= k < q <= |b| && (k - p >= |symbol| || symbol[k - p] != b[k]);
      if |symbol| >= q - p {
        assert symbol[..q - p][k - p] != b[p..q][k - p];
      }
    }
  }

  method SkipNumber(b: seq<byte>, p: nat) returns (next: Option<nat>)
    ensures next == SkipLeb(b, p)
  {
    var q: nat := p;
    while q < |b| && b[q] >= 0x80
      invariant p <= q && SkipLeb(b, p) == SkipLeb(b, q)
      decreases |b| - q
    {
      q := q + 1;
    }
    next := if q >= |b| then None else Some(q + 1);
  }

  /** The loop over the children of one node. */
  method ScanChildren(b: seq<byte>, p: nat, count: nat, symbol: seq<byte>) returns (s: Step)
    requires forall i :: 0 <= i < |symbol| ==> symbol[i] != 0
    ensures s == ChooseChild(b, p, count, symbol)
  {
    hide StringEnd, SkipLeb, Uleb;
    var q: nat, remaining := p, count;
    while remaining > 0
      invariant ChooseChild(b, p, count, symbol) == ChooseChild(b, q, remaining, symbol)
    {
      var end, wrongEdge := ScanEdge(b, q, symbol);
      if end.None? {
        return Overrun;
      }
      if wrongEdge {
        var next := SkipNumber(b, end.value + 1);
        if next.None? {
          return Overrun;
        }
        q := next.value;
      } else {
        var nodeOffset := ReadUleb128(b, end.value + 1);
        if nodeOffset.None? {
          return Overrun;
        }
        if nodeOffset.value.value == 0 || nodeOffset.value.value > |b| {
          return Stop;
        }
        return Matched(nodeOffset.value.value, symbol[end.value - q..]);
      }
      remaining := remaining - 1;
    }
    return NoChild;
  }

  /** walk_exported_trie. Every turn of the outer loop visits a new node, so it ends on
      any bytes. */
  method WalkExportedTrie(b: seq<byte>, start: nat, name: seq<byte>) returns (r: Outcome)
    requires forall i :: 0 <= i < |name| ==> name[i] != 0
    ensures r == Walk(b, start, 0, name, [0])
  {
    hide ChooseChild, Uleb;
    var visitedNodeOffsets := new uint32[128](_ => 0);
    var visitedNodeOffsetCount: nat := 1;
    var p: nat, symbol := 0, name;
    assert visitedNodeOffsets[..1] == [0];
    while p < |b|
      invariant 1 <= visitedNodeOffsetCount < 128
      invariant forall i :: 0 <= i < |symbol| ==> symbol[i] != 0
      invariant Walk(b, start, 0, name, [0]) == Walk(b, start, p, symbol, visitedNodeOffsets[..visitedNodeOffsetCount])
      decreases 128 - visitedNodeOffsetCount
    {
      var terminalSize := ReadUleb128(b, p);
      if terminalSize.None? {
        return Fault;
      }
      p := terminalSize.value.next;
      if symbol == [] && terminalSize.value.value != 0 {
        return Found(p);
      }
      var children := ChildrenAt(start, p + terminalSize.value.value);
      if children > |b| {
        return NotFound;
      }
      if children < 0 || children == |b| {
        return Fault;
      }
      var s := ScanChildren(b, children + 1, b[children], symbol);
      if s.Overrun? {
        return Fault;
      }
      if !s.Matched? {
        return NotFound;
      }
      MatchedRest(b, children + 1, b[children], symbol);
      for i := 0 to visitedNodeOffsetCount
        invariant forall j :: 0 <= j < i ==> visitedNodeOffsets[j] != s.offset
      {
        if visitedNodeOffsets[i] == s.offset {
          assert s.offset in visitedNodeOffsets[..visitedNodeOffsetCount];
          return NotFound;
        }
      }
      ghost var before := visitedNodeOffsets[..visitedNodeOffsetCount];
      visitedNodeOffsets[visitedNodeOffsetCount] := Low32(s.offset);
      visitedNodeOffsetCount := visitedNodeOffsetCount + 1;
      assert visitedNodeOffsets[..visitedNodeOffsetCount] == before + [Low32(s.offset)];
      if visitedNodeOffsetCount >= 128 {
        return NotFound;
      }
      p, symbol := s.offset, s.rest;
    }
    return NotFound;
  }

  lemma {:induction false} MatchedRest(b: seq<byte>, p: nat, count: nat, symbol: seq<byte>)
    ensures var s := ChooseChild(b, p, count, symbol);
      s.Matched? ==> exists k :: 0 <= k <= |symbol| && s.rest == symbol[k..]
    decreases count
  {
    hide Uleb;
    if count > 0 && StringEnd(b, p).Some? {
      var next := SkipLeb(b, StringEnd(b, p).value + 1);
      if next.Some? {
        MatchedRest(b, next.value, count - 1, symbol);
      }
    }
  }
}
