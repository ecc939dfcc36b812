/** Symbol rebinding: a list of calls, newest first, kept applied to every pointer slot of
    every loaded image. */
module Fishhook {
  import opened Bytes
  import opened Options
  import opened Reachability

  type Address = nat

  /** struct rebinding; `replaced` names the caller's cell for the old pointer. */
  datatype Rebinding = Rebinding(name: seq<byte>, replacement: Address, replaced: Option<nat>)

  /** The arguments of one rebind_symbols call. */
  type Call = seq<Rebinding>

  /** The slot's symbol, unless it is absolute or local, and what it held when loaded. */
  datatype Slot = Slot(symbol: Option<seq<byte>>, original: Address)

  datatype State = State(head: seq<Call>, slots: seq<Slot>, values: seq<Address>, cells: map<nat, Address>)

  // ----- Matching -----

  /** Longer than one character, and equal to the name after the first. */
  predicate NameMatches(symbol: seq<byte>, name: seq<byte>)
  {
    |symbol| > 1 && symbol[1..] == name
  }

  /** A match, with the age of its call: the first call has age 1. */
  datatype Match = Match(age: nat, index: nat)

  function FirstIn(call: Call, symbol: seq<byte>, from: nat): (r: Option<nat>)
    requires from <= |call|
    ensures r.Some? ==> from <= r.value < |call| && NameMatches(symbol, call[r.value].name)
    ensures r.Some? ==> forall j :: from <= j < r.value ==> !NameMatches(symbol, call[j].name)
    ensures r.None? ==> forall j :: from <= j < |call| ==> !NameMatches(symbol, call[j].name)
    decreases |call| - from
  {
    if from == |call| then None
    else if NameMatches(symbol, call[from].name) then Some(from)
    else FirstIn(call, symbol, from + 1)
  }

  /** The first match of the newest call that has one. */
  function Newest(head: seq<Call>, symbol: seq<byte>): (r: Option<Match>)
    ensures r.Some? ==> 0 < r.value.age <= |head| && r.value.index < |head[|head| - r.value.age]|
  {
    if head == [] then None
    else
      var found := FirstIn(head[0], symbol, 0);
      if found.Some? then Some(Match(|head|, found.value)) else Newest(head[1..], symbol)
  }

  function At(head: seq<Call>, m: Match): (r: Rebinding)
    requires 0 < m.age <= |head| && m.index < |head[|head| - m.age]|
  {
    head[|head| - m.age][m.index]
  }

  function SlotMatch(head: seq<Call>, slot: Slot): (r: Option<Match>)
    ensures r.Some? ==> 0 < r.value.age <= |head| && r.value.index < |head[|head| - r.value.age]|
  {
    if slot.symbol.None? then None else Newest(head, slot.symbol.value)
  }

  /** What a slot should hold. */
  function Expected(head: seq<Call>, slot: Slot): (v: Address)
  {
    if SlotMatch(head, slot).None? then slot.original else At(head, SlotMatch(head, slot).value).replacement
  }

  /** Rebinding k of call j names the slot's symbol behind its underscore. */
  predicate Names(head: seq<Call>, slot: Slot, j: nat, k: nat)
    requires j < |head| && k < |head[j]|
  {
    slot.symbol.Some? && |slot.symbol.value| >= 2 && head[j][k].name == slot.symbol.value[1..]
  }

  /** It is the first of its call that does, and no newer call has one. */
  ghost predicate FirstToName(head: seq<Call>, slot: Slot, j: nat, k: nat)
  {
    && j < |head| && k < |head[j]| && Names(head, slot, j, k)
    && (forall m: nat :: m < k ==> !Names(head, slot, j, m))
    && (forall i: nat, m: nat :: i < j && m < |head[i]| ==> !Names(head, slot, i, m))
  }

  lemma FirstNames(head: seq<Call>, slot: Slot)
    requires head != [] && slot.symbol.Some?
    ensures var found := FirstIn(head[0], slot.symbol.value, 0);
      && (found.Some? ==> Names(head, slot, 0, found.value))
      && (found.Some? ==> forall m: nat :: m < found.value ==> !Names(head, slot, 0, m))
      && (found.None? ==> forall m: nat :: m < |head[0]| ==> !Names(head, slot, 0, m))
  {
    hide FirstIn;
  }

  lemma FirstInTail(head: seq<Call>, slot: Slot, j: nat, k: nat)
    requires head != [] && FirstToName(head, slot, j + 1, k)
    ensures FirstToName(head[1..], slot, j, k)
  {
    hide Names;
    assert forall i: nat, m: nat :: i < |head| - 1 && m < |head[1..][i]| ==>
      (Names(head[1..], slot, i, m) <==> Names(head, slot, i + 1, m)) by { NamesTail(head, slot); }
  }

  lemma NamesTail(head: seq<Call>, slot: Slot)
    requires head != []
    ensures forall i: nat, m: nat :: i < |head| - 1 && m < |head[1..][i]| ==>
      (Names(head[1..], slot, i, m) <==> Names(head, slot, i + 1, m))
  {
  }

  lemma {:induction false} NewestIs(head: seq<Call>, symbol: seq<byte>, slot: Slot, j: nat, k: nat)
    requires slot.symbol == Some(symbol) && FirstToName(head, slot, j, k)
    ensures Newest(head, symbol) == Some(Match(|head| - j, k))
    decreases j
  {
    hide FirstIn, Names;
    FirstNames(head, slot);
    if j > 0 {
      FirstInTail(head, slot, j - 1, k);
      NewestIs(head[1..], symbol, slot, j - 1, k);
    }
  }

  /** A slot should hold the replacement of the rebinding that is first to name its symbol,
      or, when none does, what it held when it was loaded. */
  lemma ExpectedIs(head: seq<Call>, slot: Slot, j: nat, k: nat)
    ensures FirstToName(head, slot, j, k) ==> Expected(head, slot) == head[j][k].replacement
    ensures (forall i: nat, m: nat :: i < |head| && m < |head[i]| ==> !Names(head, slot, i, m)) ==>
      Expected(head, slot) == slot.original
  {
    hide Newest;
    if FirstToName(head, slot, j, k) {
      NewestIs(head, slot.symbol.value, slot, j, k);
    }
    if slot.symbol.Some? && Newest(head, slot.symbol.value).Some? {
      NewestNames(head, slot);
    }
  }

  lemma {:induction false} NewestNames(head: seq<Call>, slot: Slot)
    requires slot.symbol.Some? && Newest(head, slot.symbol.value).Some?
    ensures var m := Newest(head, slot.symbol.value).value; Names(head, slot, |head| - m.age, m.index)
  {
    hide FirstIn;
    if FirstIn(head[0], slot.symbol.value, 0).None? {
      NewestNames(head[1..], slot);
      var m := Newest(head, slot.symbol.value).value;
      assert head[1..][|head| - 1 - m.age] == head[|head| - m.age];
    }
  }

  // ----- The invariant -----

  predicate IsMatch(head: seq<Call>, m: Match)
  {
    0 < m.age <= |head| && m.index < |head[|head| - m.age]|
  }

  /** No two rebindings share a replacement or a cell, and no replacement is an original. */
  ghost predicate Distinct(s: State)
  {
    && (forall m, n :: IsMatch(s.head, m) && IsMatch(s.head, n) && m != n ==>
          At(s.head, m).replacement != At(s.head, n).replacement
          && (At(s.head, m).replaced.Some? ==> At(s.head, m).replaced != At(s.head, n).replaced))
    && (forall m, i :: IsMatch(s.head, m) && 0 <= i < |s.slots| ==> At(s.head, m).replacement != s.slots[i].original)
  }

  ghost predicate IsOriginal(s: State, v: Address)
  {
    exists i :: 0 <= i < |s.slots| && s.slots[i].original == v
  }

  /** v is the replacement of rebinding m, of age below `bound`, whose cell, if it has
      one, has been written. */
  ghost predicate IsReplacement(s: State, v: Address, m: Match, bound: nat)
  {
    && IsMatch(s.head, m) && m.age < bound && At(s.head, m).replacement == v
    && (At(s.head, m).replaced.Some? ==> At(s.head, m).replaced.value in s.cells)
  }

  ghost predicate Known(s: State, v: Address, bound: nat)
  {
    IsOriginal(s, v) || exists m :: IsReplacement(s, v, m, bound)
  }

  /** A saved pointer is older than the rebinding it was saved for. */
  ghost predicate CellsOlder(s: State)
  {
    forall m :: IsMatch(s.head, m) && At(s.head, m).replaced.Some? && At(s.head, m).replaced.value in s.cells ==>
      Known(s, s.cells[At(s.head, m).replaced.value], m.age)
  }

  /** Only cells of rebindings are ever written. */
  ghost predicate CellsOwned(s: State)
  {
    forall c :: c in s.cells ==> exists m :: IsMatch(s.head, m) && At(s.head, m).replaced == Some(c)
  }

  ghost predicate SlotsKnown(s: State)
  {
    forall i :: 0 <= i < |s.values| ==> Known(s, s.values[i], |s.head| + 1)
  }

  /** Slots lo..hi are up to date with `head`. */
  ghost predicate Applied(s: State, head: seq<Call>, lo: nat, hi: nat)
    requires |s.values| == |s.slots|
  {
    forall i :: lo <= i < hi <= |s.slots| ==> s.values[i] == Expected(head, s.slots[i])
  }

  /** What holds of everything but the slot values, at every step. */
  ghost predicate Sound(s: State)
  {
    |s.values| == |s.slots| && Distinct(s) && CellsOwned(s) && CellsOlder(s) && SlotsKnown(s)
  }

  /** Between calls, whatever was registered, every slot holds the replacement of the
      newest call's first match, or what it held when it was loaded. */
  ghost predicate Current(s: State)
  {
    |s.values| == |s.slots| && Applied(s, s.head, 0, |s.slots|)
  }

  // ----- One slot -----

  /** The body of the slot loop. */
  function Rebind(s: State, i: nat): (s': State)
    requires |s.values| == |s.slots| && i < |s.slots|
    ensures s'.head == s.head && s'.slots == s.slots && |s'.values| == |s.values|
  {
    var m := SlotMatch(s.head, s.slots[i]);
    if m.None? then s
    else
      var r := At(s.head, m.value);
      s.(values := s.values[i := r.replacement],
         cells := if r.replaced.Some? && s.values[i] != r.replacement then s.cells[r.replaced.value := s.values[i]]
           else s.cells)
  }

  lemma KnownMore(s: State, s': State, v: Address, bound: nat)
    requires s'.head == s.head && s'.slots == s.slots && s.cells.Keys <= s'.cells.Keys && Known(s, v, bound)
    ensures Known(s', v, bound)
  {
    if m :| IsReplacement(s, v, m, bound) {
      assert IsReplacement(s', v, m, bound);
    } else {
      assert IsOriginal(s', v);
    }
  }

  lemma KnownHigher(s: State, v: Address, bound: nat, bound': nat)
    requires Known(s, v, bound) && bound <= bound'
    ensures Known(s, v, bound')
  {
    if m :| IsReplacement(s, v, m, bound) {
      assert IsReplacement(s, v, m, bound');
    }
  }

  /** Rebinding one slot keeps every saved pointer older than its owner. */
  lemma RebindKeeps(s: State, i: nat)
    requires i < |s.values| && Sound(s)
    requires s.values[i] == Expected(s.head, s.slots[i])
      || (SlotMatch(s.head, s.slots[i]).Some? && Known(s, s.values[i], SlotMatch(s.head, s.slots[i]).value.age))
    ensures var s' := Rebind(s, i);
      Sound(s') && s'.values[i] == Expected(s.head, s.slots[i])
  {
    hide SlotMatch, NameMatches;
    var s' := Rebind(s, i);
    var m := SlotMatch(s.head, s.slots[i]);
    assert s.cells.Keys <= s'.cells.Keys;
    if m.Some? {
      var r := At(s.head, m.value);
      forall n | IsMatch(s'.head, n) && At(s'.head, n).replaced.Some? && At(s'.head, n).replaced.value in s'.cells
        ensures Known(s', s'.cells[At(s'.head, n).replaced.value], n.age)
      {
        if r.replaced.Some? && s.values[i] != r.replacement && At(s.head, n).replaced == r.replaced {
          assert n == m.value;
          KnownMore(s, s', s.values[i], n.age);
        } else {
          KnownMore(s, s', s.cells[At(s.head, n).replaced.value], n.age);
        }
      }
      forall j | 0 <= j < |s'.values| ensures Known(s', s'.values[j], |s.head| + 1)
      {
        if j == i {
          if s.values[i] == r.replacement {
            KnownMore(s, s', s.values[i], |s.head| + 1);
          } else {
            assert IsReplacement(s', r.replacement, m.value, |s.head| + 1);
          }
        } else {
          KnownMore(s, s', s.values[j], |s.head| + 1);
        }
      }
    }
  }

  // ----- A new call, a new image -----

  lemma AtPrepended(call: Call, head: seq<Call>, m: Match)
    ensures IsMatch(head, m) ==> IsMatch([call] + head, m) && At([call] + head, m) == At(head, m)
    ensures IsMatch([call] + head, m) && m.age <= |head| ==> IsMatch(head, m)
  {
  }

  lemma KnownPrepended(s: State, call: Call, v: Address, bound: nat)
    requires Known(s, v, bound)
    ensures Known(s.(head := [call] + s.head), v, bound)
  {
    var s' := s.(head := [call] + s.head);
    if m :| IsReplacement(s, v, m, bound) {
      AtPrepended(call, s.head, m);
      assert IsReplacement(s', v, m, bound);
    } else {
      assert IsOriginal(s', v);
    }
  }

  /** A written cell belongs to an older call. */
  lemma WrittenCell(s: State, call: Call, m: Match)
    requires Sound(s) && Distinct(s.(head := [call] + s.head)) && IsMatch([call] + s.head, m)
    requires At([call] + s.head, m).replaced.Some? && At([call] + s.head, m).replaced.value in s.cells
    ensures Known(s.(head := [call] + s.head), s.cells[At([call] + s.head, m).replaced.value], m.age)
  {
    hide Known, SlotsKnown;
    var c := At([call] + s.head, m).replaced.value;
    var n :| IsMatch(s.head, n) && At(s.head, n).replaced == Some(c);
    AtPrepended(call, s.head, n);
    assert n == m;
    KnownPrepended(s, call, s.cells[c], m.age);
  }

  /** Prepending a call: nothing saved for the new rebindings yet. */
  lemma Prepended(s: State, call: Call)
    requires Sound(s) && Distinct(s.(head := [call] + s.head))
    ensures Sound(s.(head := [call] + s.head))
  {
    hide Known, Distinct;
    var s' := s.(head := [call] + s.head);
    forall m | IsMatch(s'.head, m) && At(s'.head, m).replaced.Some? && At(s'.head, m).replaced.value in s'.cells
      ensures Known(s', s'.cells[At(s'.head, m).replaced.value], m.age)
    {
      WrittenCell(s, call, m);
    }
    forall i | 0 <= i < |s'.values| ensures Known(s', s'.values[i], |s'.head| + 1)
    {
      KnownPrepended(s, call, s.values[i], |s.head| + 1);
      KnownHigher(s', s.values[i], |s.head| + 1, |s'.head| + 1);
    }
    forall c | c in s'.cells ensures exists m :: IsMatch(s'.head, m) && At(s'.head, m).replaced == Some(c)
    {
      var m :| IsMatch(s.head, m) && At(s.head, m).replaced == Some(c);
      AtPrepended(call, s.head, m);
    }
  }

  /** Before its turn, a slot still holds what the older calls gave it. */
  lemma BeforeTurn(s: State, i: nat)
    requires Sound(s) && s.head != [] && i < |s.slots| && s.values[i] == Expected(s.head[1..], s.slots[i])
    ensures s.values[i] == Expected(s.head, s.slots[i])
      || (SlotMatch(s.head, s.slots[i]).Some? && Known(s, s.values[i], SlotMatch(s.head, s.slots[i]).value.age))
  {
    hide NameMatches;
    var tail, slot := s.head[1..], s.slots[i];
    var m, before := SlotMatch(s.head, slot), SlotMatch(tail, slot);
    assert s.head == [s.head[0]] + tail;
    if m.Some? && m.value.age == |s.head| {
      if before.Some? {
        AtPrepended(s.head[0], tail, before.value);
        assert IsMatch(s.head, before.value);
        assert Known(s, s.values[i], |s.head| + 1);
        var n :| IsReplacement(s, s.values[i], n, |s.head| + 1);
        assert n == before.value;
        assert IsReplacement(s, s.values[i], n, m.value.age);
      } else {
        assert IsOriginal(s, s.values[i]);
      }
    } else if m.Some? {
      AtPrepended(s.head[0], tail, before.value);
    }
  }

  lemma FreshTurn(s: State, i: nat)
    requires |s.values| == |s.slots| && i < |s.slots| && s.values[i] == s.slots[i].original
    ensures s.values[i] == Expected(s.head, s.slots[i])
      || (SlotMatch(s.head, s.slots[i]).Some? && Known(s, s.values[i], SlotMatch(s.head, s.slots[i]).value.age))
  {
    hide SlotMatch;
    assert IsOriginal(s, s.values[i]);
  }

  function Originals(slots: seq<Slot>): (v: seq<Address>)
    ensures |v| == |slots|
  {
    seq(|slots|, i requires 0 <= i < |slots| => slots[i].original)
  }

  function Loaded(s: State, slots: seq<Slot>): (s': State)
  {
    s.(slots := s.slots + slots, values := s.values + Originals(slots))
  }

  lemma KnownLoaded(s: State, slots: seq<Slot>, v: Address, bound: nat)
    requires Known(s, v, bound)
    ensures Known(Loaded(s, slots), v, bound)
  {
    if m :| IsReplacement(s, v, m, bound) {
      assert IsReplacement(Loaded(s, slots), v, m, bound);
    } else {
      var i :| 0 <= i < |s.slots| && s.slots[i].original == v;
      assert Loaded(s, slots).slots[i].original == v;
    }
  }

  lemma ImageLoaded(s: State, slots: seq<Slot>)
    requires Sound(s) && Distinct(Loaded(s, slots))
    ensures Sound(Loaded(s, slots))
  {
    var s' := Loaded(s, slots);
    forall m | IsMatch(s'.head, m) && At(s'.head, m).replaced.Some? && At(s'.head, m).replaced.value in s'.cells
      ensures Known(s', s'.cells[At(s'.head, m).replaced.value], m.age)
    {
      KnownLoaded(s, slots, s.cells[At(s.head, m).replaced.value], m.age);
    }
    forall i | 0 <= i < |s'.values| ensures Known(s', s'.values[i], |s'.head| + 1)
    {
      if i < |s.values| {
        KnownLoaded(s, slots, s.values[i], |s.head| + 1);
      } else {
        assert s'.slots[i].original == s'.values[i];
      }
    }
  }

  // ----- Following saved pointers -----

  /** From a pointer held by a slot or a cell: call the replacement, then what it saved,
      and so on. Each step goes to a strictly older rebinding, so the chain ends. */
  ghost function Chain(s: State, v: Address, bound: nat): (c: seq<Address>)
    requires Sound(s) && Known(s, v, bound)
    decreases bound
  {
    if IsOriginal(s, v) then [v]
    else
      var m :| IsReplacement(s, v, m, bound);
      if At(s.head, m).replaced.None? then [v]
      else [v] + Chain(s, s.cells[At(s.head, m).replaced.value], m.age)
  }

  /** One link of a chain. */
  lemma ChainStep(s: State, v: Address, bound: nat) returns (m: Match)
    requires Sound(s) && Known(s, v, bound) && !IsOriginal(s, v)
    ensures IsMatch(s.head, m) && m.age < bound && At(s.head, m).replacement == v
    ensures At(s.head, m).replaced.None? ==> Chain(s, v, bound) == [v]
    ensures At(s.head, m).replaced.Some? ==>
      At(s.head, m).replaced.value in s.cells
      && (var saved := s.cells[At(s.head, m).replaced.value];
          Known(s, saved, m.age) && Chain(s, v, bound) == [v] + Chain(s, saved, m.age))
  {
    m :| IsReplacement(s, v, m, bound) &&
      Chain(s, v, bound) == if At(s.head, m).replaced.None? then [v]
                            else [v] + Chain(s, s.cells[At(s.head, m).replaced.value], m.age);
  }

  /** It ends at an original, or at a rebinding that asked for no pointer to be saved. */
  lemma {:induction false} ChainEnds(s: State, v: Address, bound: nat)
    requires Sound(s) && Known(s, v, bound)
    ensures var c := Chain(s, v, bound);
      && c != [] && c[0] == v
      && (IsOriginal(s, c[|c| - 1])
          || exists m :: IsMatch(s.head, m) && At(s.head, m).replacement == c[|c| - 1] && At(s.head, m).replaced.None?)
    decreases bound
  {
    hide Sound, Known;
    if !IsOriginal(s, v) {
      var m := ChainStep(s, v, bound);
      if At(s.head, m).replaced.Some? {
        ChainEnds(s, s.cells[At(s.head, m).replaced.value], m.age);
      }
    }
  }

  /** Every pointer on a chain is an original or the replacement of a rebinding older than
      the bound, and no pointer repeats. */
  lemma {:induction false} ChainAcyclic(s: State, v: Address, bound: nat)
    requires Sound(s) && Known(s, v, bound)
    ensures var c := Chain(s, v, bound);
      && (forall i :: 0 <= i < |c| ==> Known(s, c[i], bound))
      && (forall i, j :: 0 <= i < j < |c| ==> c[i] != c[j])
    decreases bound
  {
    hide Sound, Known;
    if !IsOriginal(s, v) {
      var m := ChainStep(s, v, bound);
      if At(s.head, m).replaced.Some? {
        var saved := s.cells[At(s.head, m).replaced.value];
        var rest := Chain(s, saved, m.age);
        ChainAcyclic(s, saved, m.age);
        forall i | 0 <= i < |rest| ensures Known(s, rest[i], bound) && rest[i] != v
        {
          KnownHigher(s, rest[i], m.age, bound);
          NotYounger(s, rest[i], v, m);
        }
      }
    }
  }

  lemma NotYounger(s: State, w: Address, v: Address, m: Match)
    requires Sound(s) && Known(s, w, m.age) && IsMatch(s.head, m) && At(s.head, m).replacement == v
    ensures w != v
  {
    hide CellsOwned, CellsOlder, SlotsKnown;
    if n :| IsReplacement(s, w, n, m.age) {
      assert n != m;
    }
  }

  // ----- What one call writes, and the circles it closes -----

  /** The cell that the turn of slot i writes, if it writes one. */
  function Written(s: State, i: nat): (w: map<nat, Address>)
    requires |s.values| == |s.slots| && i < |s.slots|
  {
    var m := SlotMatch(s.head, s.slots[i]);
    if m.None? then map[]
    else
      var r := At(s.head, m.value);
      if r.replaced.Some? && s.values[i] != r.replacement then map[r.replaced.value := s.values[i]] else map[]
  }

  /** What the turns of slots lo to hi leave in the cells, read off the slots before them. */
  function Writes(s: State, lo: nat, hi: nat): (w: map<nat, Address>)
    requires |s.values| == |s.slots| && lo <= hi <= |s.slots|
  {
    if lo == hi then map[] else Writes(s, lo, hi - 1) + Written(s, hi - 1)
  }

  lemma RebindWrites(s: State, i: nat)
    requires |s.values| == |s.slots| && i < |s.slots|
    ensures Rebind(s, i).cells == s.cells + Written(s, i)
  {
    hide SlotMatch;
  }

  /** Before its turn a slot holds what it held at the start, so its turn is the next one. */
  lemma TurnWrites(start: State, lo: nat, i: nat, s: State)
    requires |start.values| == |start.slots| && lo <= i < |start.slots|
    requires s.head == start.head && s.slots == start.slots && |s.values| == |s.slots|
    requires s.values[i] == start.values[i] && s.cells == start.cells + Writes(start, lo, i)
    ensures Rebind(s, i).cells == start.cells + Writes(start, lo, i + 1)
    ensures forall j :: 0 <= j < |s.slots| && j != i ==> Rebind(s, i).values[j] == s.values[j]
  {
    hide SlotMatch, Written, Writes;
    RebindWrites(s, i);
    SameWritten(start, s, i);
    WritesStep(start, lo, i);
  }

  lemma SameWritten(s: State, s': State, i: nat)
    requires |s.values| == |s.slots| == |s'.values| && s'.head == s.head && s'.slots == s.slots
    requires i < |s.slots| && s'.values[i] == s.values[i]
    ensures Written(s', i) == Written(s, i)
  {
    hide SlotMatch;
  }

  lemma WritesStep(s: State, lo: nat, i: nat)
    requires |s.values| == |s.slots| && lo <= i < |s.slots|
    ensures Writes(s, lo, i + 1) == Writes(s, lo, i) + Written(s, i)
  {
    hide Written;
  }

  lemma NoWrites(s: State, lo: nat)
    requires |s.values| == |s.slots| && lo <= |s.slots|
    ensures s.cells == s.cells + Writes(s, lo, lo)
  {
  }

  /** p goes from a replacement to the pointer saved for it. */
  ghost predicate Saves(head: seq<Call>, cells: map<nat, Address>, m: Match, p: (Address, Address))
  {
    && IsMatch(head, m) && At(head, m).replaced.Some? && At(head, m).replaced.value in cells
    && p == (At(head, m).replacement, cells[At(head, m).replaced.value])
  }

  ghost predicate IsSaved(head: seq<Call>, cells: map<nat, Address>, p: (Address, Address))
  {
    exists m :: Saves(head, cells, m, p)
  }

  ghost function Links(head: seq<Call>, cells: map<nat, Address>): (e: Edges)
  {
    iset p: (Address, Address) | IsSaved(head, cells, p)
  }

  lemma LinksMerge(head: seq<Call>, cells: map<nat, Address>, w: map<nat, Address>)
    ensures Links(head, cells + w) == Links(head, cells - w.Keys) + Links(head, w)
  {
    forall p: (Address, Address)
      ensures p in Links(head, cells + w) <==> p in Links(head, cells - w.Keys) + Links(head, w)
    {
      if m :| Saves(head, cells + w, m, p) {
        assert Saves(head, w, m, p) || Saves(head, cells - w.Keys, m, p);
      }
      if m :| Saves(head, w, m, p) {
        assert Saves(head, cells + w, m, p);
      }
      if m :| Saves(head, cells - w.Keys, m, p) {
        assert Saves(head, cells + w, m, p);
      }
    }
  }

  /** Some of the pointers about to be saved lead, over pointers that stay, from one
      replacement to the next and back. */
  ghost predicate Closes(s: State, lo: nat)
    requires |s.values| == |s.slots| && lo <= |s.slots|
  {
    var w := Writes(s, lo, |s.slots|);
    var kept := Links(s.head, s.cells - w.Keys);
    Circle(kept) || exists c: seq<(nat, nat)> :: Ring(kept, Links(s.head, w), c)
  }

  /** After the turns of the slots from lo on, saved pointers lead round in a circle exactly
      when what is there before says so; nothing is asked of the rebindings. */
  lemma CallCircles(s: State, lo: nat)
    requires |s.values| == |s.slots| && lo <= |s.slots|
    ensures Circle(Links(s.head, s.cells + Writes(s, lo, |s.slots|))) <==> Closes(s, lo)
  {
    hide Writes, Links, Circle, Ring;
    var w := Writes(s, lo, |s.slots|);
    LinksMerge(s.head, s.cells, w);
    CircleIsRing(Links(s.head, s.cells - w.Keys), Links(s.head, w));
  }

  /** v is the replacement of a rebinding with this cell. */
  ghost predicate HasCell(head: seq<Call>, cell: nat, v: Address)
  {
    exists m :: IsMatch(head, m) && At(head, m).replaced == Some(cell) && At(head, m).replacement == v
  }

  ghost function Sources(head: seq<Call>, cell: nat): (v: iset<Address>)
  {
    iset v: Address | HasCell(head, cell, v)
  }

  lemma OneCell(head: seq<Call>, cells: map<nat, Address>, cell: nat, saved: Address)
    ensures Links(head, map[cell := saved]) == Redirect(Sources(head, cell), saved)
    ensures Links(head, cells - {cell}) <= Links(head, cells)
    ensures forall p :: p in Links(head, cells) && p !in Links(head, cells - {cell}) ==> p.0 in Sources(head, cell)
  {
    var one := map[cell := saved];
    forall p: (Address, Address) ensures p in Links(head, one) <==> p in Redirect(Sources(head, cell), saved)
    {
      if m :| Saves(head, one, m, p) {
        assert p.0 in Sources(head, cell);
      }
      if p in Redirect(Sources(head, cell), saved) {
        var m :| IsMatch(head, m) && At(head, m).replaced == Some(cell) && At(head, m).replacement == p.0;
        assert Saves(head, one, m, p);
      }
    }
    forall p: (Address, Address) | p in Links(head, cells - {cell}) ensures p in Links(head, cells)
    {
      var m :| Saves(head, cells - {cell}, m, p);
      assert Saves(head, cells, m, p);
    }
    forall p: (Address, Address) | p in Links(head, cells) && p !in Links(head, cells - {cell})
      ensures p.0 in Sources(head, cell)
    {
      var m :| Saves(head, cells, m, p);
      assert !Saves(head, cells - {cell}, m, p);
    }
  }

  /** Writing one cell closes a circle exactly when the saved pointer leads to a replacement
      that the cell belongs to. */
  lemma CellCircles(head: seq<Call>, cells: map<nat, Address>, cell: nat, saved: Address)
    ensures Circle(Links(head, cells[cell := saved])) <==>
        || Circle(Links(head, cells - {cell}))
        || exists v: nat :: v in Sources(head, cell) && Reaches(Links(head, cells), saved, v)
  {
    hide Links, Sources, Redirect, Circle, Reaches;
    var one := map[cell := saved];
    assert cells[cell := saved] == cells + one && cells - one.Keys == cells - {cell};
    LinksMerge(head, cells, one);
    OneCell(head, cells, cell, saved);
    RedirectedCircle(Links(head, cells), Links(head, cells - {cell}), Sources(head, cell), saved);
  }

  // ----- Sound states have no circle -----

  lemma OlderSaved(s: State, a: Address, b: Address, bound: nat)
    requires Sound(s) && Known(s, a, bound) && (a, b) in Links(s.head, s.cells)
    ensures Known(s, b, bound)
  {
    hide CellsOwned, SlotsKnown;
    var n :| Saves(s.head, s.cells, n, (a, b));
    if m :| IsReplacement(s, a, m, bound) {
      assert n == m;
      KnownHigher(s, b, n.age, bound);
    }
  }

  lemma {:induction false} KnownAlong(s: State, p: seq<Address>, bound: nat)
    requires Sound(s) && Path(Links(s.head, s.cells), p) && Known(s, p[0], bound)
    ensures Known(s, p[|p| - 1], bound)
  {
    hide Sound, Known, Links;
    if |p| > 1 {
      assert (p[0], p[1]) in Links(s.head, s.cells);
      OlderSaved(s, p[0], p[1], bound);
      assert Path(Links(s.head, s.cells), p[1..]);
      KnownAlong(s, p[1..], bound);
    }
  }

  lemma SoundHasNoCircle(s: State)
    requires Sound(s)
    ensures !Circle(Links(s.head, s.cells))
  {
    hide Distinct, CellsOwned, SlotsKnown, Known;
    if Circle(Links(s.head, s.cells)) {
      var v: nat :| Leads(Links(s.head, s.cells), v, v);
      var x: nat :| (v, x) in Links(s.head, s.cells) && Reaches(Links(s.head, s.cells), x, v);
      var m :| Saves(s.head, s.cells, m, (v, x));
      var p: seq<nat> :| Path(Links(s.head, s.cells), p) && p[0] == x && p[|p| - 1] == v;
      KnownAlong(s, p, m.age);
      NotYounger(s, v, v, m);
      assert false;
    }
  }

  // ----- Registering a rebinding again -----

  lemma AgainLinks(head: seq<Call>, m: Match, cells: map<nat, Address>)
    requires IsMatch(head, m)
    ensures Links([[At(head, m)]] + head, cells) == Links(head, cells)
  {
    var r := At(head, m);
    var twice := [[r]] + head;
    forall p: (Address, Address) ensures p in Links(twice, cells) <==> p in Links(head, cells)
    {
      if n :| Saves(twice, cells, n, p) {
        AtPrepended([r], head, n);
        assert Saves(head, cells, if n.age <= |head| then n else m, p);
      }
      if n :| Saves(head, cells, n, p) {
        AtPrepended([r], head, n);
        assert Saves(twice, cells, n, p);
      }
    }
  }

  lemma AgainSources(s: State, m: Match, cell: nat)
    requires Distinct(s) && IsMatch(s.head, m) && At(s.head, m).replaced == Some(cell)
    ensures Sources([[At(s.head, m)]] + s.head, cell) == iset{At(s.head, m).replacement}
  {
    var r := At(s.head, m);
    var twice := [[r]] + s.head;
    forall v: Address ensures v in Sources(twice, cell) <==> v == r.replacement
    {
      if n :| IsMatch(twice, n) && At(twice, n).replaced == Some(cell) && At(twice, n).replacement == v {
        AtPrepended([r], s.head, n);
        assert n.age <= |s.head| ==> n == m;
      }
      AtPrepended([r], s.head, m);
      assert v == r.replacement ==> v in Sources(twice, cell);
    }
  }

  /** The turn of one slot that names the rebinding and holds something else. */
  lemma AgainAtSlot(s: State, m: Match, i: nat)
    requires Sound(s) && IsMatch(s.head, m) && At(s.head, m).replaced.Some? && i < |s.slots|
    requires var r := At(s.head, m);
      SlotMatch([[r]] + s.head, s.slots[i]) == Some(Match(|s.head| + 1, 0)) && s.values[i] != r.replacement
    ensures var r, s' := At(s.head, m), Rebind(s.(head := [[At(s.head, m)]] + s.head), i);
      Circle(Links(s'.head, s'.cells)) <==> Leads(Links(s.head, s.cells), s.values[i], r.replacement)
  {
    hide Links, Sources, Circle, Leads, SlotMatch, CellsOwned, CellsOlder, SlotsKnown, Distinct, Reaches;
    var r := At(s.head, m);
    AgainByCell(s, m, s.values[i]);
  }

  lemma AgainByCell(s: State, m: Match, saved: Address)
    requires Sound(s) && IsMatch(s.head, m) && At(s.head, m).replaced.Some? && saved != At(s.head, m).replacement
    ensures var r := At(s.head, m);
      Circle(Links([[r]] + s.head, s.cells[r.replaced.value := saved])) <==>
        Leads(Links(s.head, s.cells), saved, r.replacement)
  {
    hide Links, Sources, Circle, Leads, CellsOwned, CellsOlder, SlotsKnown, Distinct, Reaches;
    var r := At(s.head, m);
    var cell, twice := r.replaced.value, [[r]] + s.head;
    CellCircles(twice, s.cells, cell, saved);
    AgainLinks(s.head, m, s.cells);
    AgainLinks(s.head, m, s.cells - {cell});
    AgainSources(s, m, cell);
    OneCell(s.head, s.cells, cell, saved);
    SoundHasNoCircle(s);
    if Circle(Links(s.head, s.cells - {cell})) {
      CircleMore(Links(s.head, s.cells - {cell}), Links(s.head, s.cells));
    }
    ReachesOther(Links(s.head, s.cells), saved, r.replacement);
  }

  /** Between calls only slots that name the rebinding are written by registering it again. */
  lemma {:induction false} AgainWrites(s: State, m: Match, hi: nat)
    requires Current(s) && IsMatch(s.head, m) && hi <= |s.slots|
    ensures var r, w := At(s.head, m), Writes(s.(head := [[At(s.head, m)]] + s.head), 0, hi);
      && (forall c :: c in w ==> r.replaced == Some(c) && w[c] != r.replacement)
  {
    hide NameMatches, Newest;
    if hi > 0 {
      var r := At(s.head, m);
      var s' := s.(head := [[r]] + s.head);
      AgainWrites(s, m, hi - 1);
      AgainMatch(r, s.head, s.slots[hi - 1]);
      assert s.values[hi - 1] == Expected(s.head, s.slots[hi - 1]);
    }
  }

  /** The slot's match is the new entry, or what the slot should hold already. */
  lemma AgainMatch(r: Rebinding, head: seq<Call>, slot: Slot)
    ensures var m := SlotMatch([[r]] + head, slot);
      m.Some? ==> At([[r]] + head, m.value) == r || At([[r]] + head, m.value).replacement == Expected(head, slot)
  {
    hide NameMatches;
    assert ([[r]] + head)[0] == [r] && ([[r]] + head)[1..] == head;
    if SlotMatch(head, slot).Some? {
      AtPrepended([r], head, SlotMatch(head, slot).value);
    }
  }

  /** Registering a rebinding again, between calls and in a sound state: saved pointers then
      lead round in a circle exactly when the pointer that the call is about to save, that
      of the last slot of the symbol to hold another one, leads to the replacement. */
  lemma AgainCircles(s: State, m: Match)
    requires Sound(s) && Current(s) && IsMatch(s.head, m)
    ensures var r, s' := At(s.head, m), s.(head := [[At(s.head, m)]] + s.head);
      var w := Writes(s', 0, |s.slots|);
      && (forall c :: c in w ==> r.replaced == Some(c))
      && (Closes(s', 0) <==> exists c :: c in w && Leads(Links(s.head, s.cells), w[c], r.replacement))
  {
    hide Links, Circle, Leads, Sound, Writes, Closes;
    var r, s' := At(s.head, m), s.(head := [[At(s.head, m)]] + s.head);
    var w := Writes(s', 0, |s.slots|);
    AgainWrites(s, m, |s.slots|);
    CallCircles(s', 0);
    if c :| c in w {
      assert w == map[c := w[c]];
      assert s.cells + w == s.cells[c := w[c]];
      AgainByCell(s, m, w[c]);
    } else {
      assert s.cells + w == s.cells;
      AgainLinks(s.head, m, s.cells);
      SoundHasNoCircle(s);
    }
  }

  // ----- The library -----

  class Rebinder {
    var head: seq<Call>
    var slots: seq<Slot>
    var values: seq<Address>
    var cells: map<nat, Address>

    ghost function View(): (s: State)
      reads this
    {
      State(head, slots, values, cells)
    }

    constructor ()
      ensures Current(View()) && Sound(View()) && head == [] && slots == []
    {
      head, slots, values, cells := [], [], [], map[];
    }

    /** The two inner loops: calls from the newest, rebindings in order. */
    method FindMatch(symbol: seq<byte>) returns (m: Option<Match>)
      ensures m == Newest(head, symbol)
    {
      hide NameMatches;
      var cur := head;
      while cur != []
        invariant |cur| <= |head| && cur == head[|head| - |cur|..]
        invariant Newest(head, symbol) == Newest(cur, symbol)
        decreases |cur|
      {
        for j := 0 to |cur[0]|
          invariant FirstIn(cur[0], symbol, 0) == FirstIn(cur[0], symbol, j)
        {
          if NameMatches(symbol, cur[0][j].name) {
            return Some(Match(|cur|, j));
          }
        }
        cur := cur[1..];
      }
      return None;
    }

    /** The slots lo and up, with protection changes succeeding. What they should hold is
        reached whatever the rebindings are, and nothing is written where it is held
        already. Saved pointers stay sound when they were. */
    method PerformRebinding(lo: nat, ghost prior: seq<Call>)
      requires lo <= |slots| == |values| && Applied(View(), head, 0, lo) && Applied(View(), prior, lo, |slots|)
      requires prior == [] || (head != [] && prior == head[1..])
      modifies this`values, this`cells
      ensures Current(View()) && (old(Sound(View())) ==> Sound(View()))
      ensures Agree(head, prior, slots[lo..]) ==> View() == old(View())
      ensures cells == old(cells + Writes(View(), lo, |slots|))
    {
      hide SlotMatch, Distinct, CellsOwned, CellsOlder, SlotsKnown, Expected, Known, Applied, Agree, Sound, Writes;
      ghost var start := View();
      NoWrites(start, lo);
      for i := lo to |slots|
        invariant |values| == |slots| && Applied(View(), head, 0, i) && Applied(View(), prior, i, |slots|)
        invariant Sound(start) ==> Sound(View())
        invariant Agree(head, prior, slots[lo..]) ==> View() == start
        invariant cells == start.cells + Writes(start, lo, i)
        invariant forall j :: i <= j < |slots| ==> values[j] == start.values[j]
      {
        ghost var s := View();
        TurnWrites(start, lo, i, s);
        SlotStep(s, i, prior);
        if Agree(head, prior, slots[lo..]) {
          SameSlot(s, lo, i, prior);
        }
        var m: Option<Match> := None;
        if slots[i].symbol.Some? {
          m := FindMatch(slots[i].symbol.value);
        }
        MatchIs(head, slots[i], m);
        if m.Some? {
          var r := At(head, m.value);
          if r.replaced.Some? && values[i] != r.replacement {
            cells := cells[r.replaced.value := values[i]];
          }
          values := values[i := r.replacement];
        }
        assert View() == Rebind(s, i);
      }
    }

    /** rebind_symbols; the allocation may fail. Making the newest call again writes
        nothing. What the call saves, and whether saved pointers lead round in a circle
        afterwards, can be read off what was there before. */
    method RebindSymbols(rebindings: Call, granted: bool) returns (retval: int)
      requires Current(View())
      modifies this`head, this`values, this`cells
      ensures Current(View()) && (old(Sound(View())) && Distinct(View()) ==> Sound(View()))
      ensures if granted then retval == 0 && head == [rebindings] + old(head) else retval == -1 && View() == old(View())
      ensures old(head) != [] && rebindings == old(head)[0] ==> values == old(values) && cells == old(cells)
      ensures granted ==>
        var s := old(View()).(head := [rebindings] + old(head));
        && cells == old(cells) + Writes(s, 0, |slots|)
        && (Circle(Links(head, cells)) <==> Closes(s, 0))
    {
      hide SlotMatch, Distinct, CellsOwned, CellsOlder, SlotsKnown, Expected, Known, Sound, Agree, Writes, Closes, Links;
      if !granted {
        return -1;
      }
      ghost var s := View();
      ghost var before := head;
      head := [rebindings] + head;
      assert head[1..] == before;
      if Sound(s) && Distinct(View()) {
        Prepended(s, rebindings);
      }
      if before != [] && rebindings == before[0] {
        SameCallAgain(before, slots);
      }
      assert slots[0..] == slots;
      CallCircles(View(), 0);
      label Prepared:
      PerformRebinding(0, before);
      assert Distinct(View()) == old@Prepared(Distinct(View())) by {
        SameRegistrations(old@Prepared(View()), View());
      }
      return 0;
    }

    /** An image is loaded: once a call was made, the registered callback rebinds it. */
    method ImageAdded(image: seq<Slot>)
      requires Current(View())
      modifies this`slots, this`values, this`cells
      ensures Current(View()) && slots == old(slots) + image
      ensures old(Sound(View())) && Distinct(View()) ==> Sound(View())
      ensures head != [] ==>
        var s := Loaded(old(View()), image);
        && cells == old(cells) + Writes(s, |old(slots)|, |slots|)
        && (Circle(Links(head, cells)) <==> Closes(s, |old(slots)|))
    {
      hide SlotMatch, Distinct, CellsOwned, CellsOlder, SlotsKnown, Expected, Known, Sound, Writes, Closes, Links;
      ghost var s := View();
      var lo := |slots|;
      slots, values := slots + image, values + Originals(image);
      AppliedLoaded(s, image);
      if Sound(s) && Distinct(View()) {
        ImageLoaded(s, image);
      }
      CallCircles(View(), lo);
      label Added:
      if head != [] {
        PerformRebinding(lo, []);
      } else {
        NoCallsApplied(View(), lo);
      }
      assert Distinct(View()) == old@Added(Distinct(View())) by {
        SameRegistrations(old@Added(View()), View());
      }
    }
  }

  /** Both lists of calls ask for the same in these slots. */
  ghost predicate Agree(head: seq<Call>, prior: seq<Call>, slots: seq<Slot>)
  {
    forall i :: 0 <= i < |slots| ==> Expected(head, slots[i]) == Expected(prior, slots[i])
  }

  lemma SameRegistrations(s: State, s': State)
    requires s.head == s'.head && s.slots == s'.slots
    ensures Distinct(s) == Distinct(s')
  {
  }

  lemma SameCallAgain(head: seq<Call>, slots: seq<Slot>)
    requires head != []
    ensures Agree([head[0]] + head, head, slots)
  {
    hide NameMatches;
    var twice := [head[0]] + head;
    forall i | 0 <= i < |slots| ensures Expected(twice, slots[i]) == Expected(head, slots[i])
    {
      assert twice[1..] == head;
    }
  }

  /** One turn of the slot loop. */
  lemma SlotStep(s: State, i: nat, prior: seq<Call>)
    requires |s.values| == |s.slots| && i < |s.slots| && Applied(s, s.head, 0, i) && Applied(s, prior, i, |s.slots|)
    requires prior == [] || (s.head != [] && prior == s.head[1..])
    ensures var s' := Rebind(s, i);
      && Applied(s', s.head, 0, i + 1) && Applied(s', prior, i + 1, |s.slots|)
      && (Sound(s) ==> Sound(s'))
  {
    hide SlotMatch, Distinct, CellsOwned, CellsOlder, SlotsKnown, Expected, Known, Sound;
    assert s.values[i] == Expected(prior, s.slots[i]);
    if prior == [] {
      NoCalls(s.slots[i]);
    }
    SlotValue(s, i, prior);
    OthersStay(s, i, prior);
    if Sound(s) {
      if prior == [] {
        FreshTurn(s, i);
      } else {
        BeforeTurn(s, i);
      }
      RebindKeeps(s, i);
    }
  }

  /** The new value needs nothing of the rebindings. */
  lemma SlotValue(s: State, i: nat, prior: seq<Call>)
    requires |s.values| == |s.slots| && i < |s.slots| && s.values[i] == Expected(prior, s.slots[i])
    requires prior == [] || (s.head != [] && prior == s.head[1..])
    ensures Rebind(s, i).values[i] == Expected(s.head, s.slots[i])
  {
    hide NameMatches;
    if SlotMatch(s.head, s.slots[i]).None? {
      assert SlotMatch(prior, s.slots[i]).None?;
    }
  }

  /** A slot that holds what it should is left alone, and so is its cell. */
  lemma SameSlot(s: State, lo: nat, i: nat, prior: seq<Call>)
    requires |s.values| == |s.slots| && lo <= i < |s.slots| && Applied(s, prior, i, |s.slots|)
    requires Agree(s.head, prior, s.slots[lo..])
    ensures Rebind(s, i) == s
  {
    hide SlotMatch;
    assert s.slots[lo..][i - lo] == s.slots[i];
    assert s.values[i] == Expected(s.head, s.slots[i]);
  }

  lemma NoCallsApplied(s: State, lo: nat)
    requires s.head == [] && lo <= |s.slots| == |s.values|
    requires Applied(s, s.head, 0, lo) && Applied(s, [], lo, |s.slots|)
    ensures Current(s)
  {
    hide Expected;
  }

  // ----- Why rebindings must be distinct -----

  /** One rebinding in two calls: current, but not distinct. */
  lemma SameTwice(r: Rebinding, first: byte, original: Address)
    requires r.name != []
    ensures var s := State([[r], [r]], [Slot(Some([first] + r.name), original)], [r.replacement], map[]);
      Current(s) && !Distinct(s)
  {
    var s := State([[r], [r]], [Slot(Some([first] + r.name), original)], [r.replacement], map[]);
    assert NameMatches([first] + r.name, r.name);
    assert FirstIn([r], [first] + r.name, 0) == Some(0);
    assert IsMatch(s.head, Match(1, 0)) && IsMatch(s.head, Match(2, 0));
    assert At(s.head, Match(1, 0)).replacement == At(s.head, Match(2, 0)).replacement;
  }

  /** What one call does to a single slot. */
  function Called(s: State, r: Rebinding): (s': State)
    requires |s.values| == |s.slots| == 1
  {
    Rebind(s.(head := [[r]] + s.head), 0)
  }

  /** Registering r, then q for the same symbol, then r again: each of the two cells now
      holds the other one's replacement, so the saved pointers lead round in a circle. */
  lemma AgainAfterAnother(r: Rebinding, q: Rebinding, first: byte, original: Address)
    requires r.name == q.name != [] && r.replaced.Some? && q.replaced.Some? && r.replaced != q.replaced
    requires r.replacement != q.replacement
    ensures var s := Called(Called(Called(State([], [Slot(Some([first] + r.name), original)], [original], map[]), r),
      q), r);
      && Current(s) && s.values == [r.replacement]
      && r.replaced.value in s.cells && s.cells[r.replaced.value] == q.replacement
      && q.replaced.value in s.cells && s.cells[q.replaced.value] == r.replacement
      && Circle(Links(s.head, s.cells))
  {
    var slot := Slot(Some([first] + r.name), original);
    var s1 := Called(State([], [slot], [original], map[]), r);
    OneCall(State([], [slot], [original], map[]), r);
    OneCall(s1, q);
    OneCall(Called(s1, q), r);
    var s3 := Called(Called(s1, q), r);
    TwoPointers(s3, Match(3, 0), Match(2, 0));
  }

  /** Two rebindings that saved each other. */
  lemma TwoPointers(s: State, m: Match, n: Match)
    requires IsMatch(s.head, m) && IsMatch(s.head, n)
    requires Saves(s.head, s.cells, m, (At(s.head, m).replacement, At(s.head, n).replacement))
    requires Saves(s.head, s.cells, n, (At(s.head, n).replacement, At(s.head, m).replacement))
    ensures Circle(Links(s.head, s.cells))
  {
    var e, a, b := Links(s.head, s.cells), At(s.head, m).replacement, At(s.head, n).replacement;
    assert (a, b) in e && (b, a) in e;
    ReachesStep(e, b, a);
    assert Leads(e, a, a);
  }

  lemma OneCall(s: State, r: Rebinding)
    requires |s.values| == |s.slots| == 1 && s.slots[0].symbol.Some? && NameMatches(s.slots[0].symbol.value, r.name)
    ensures var s' := Called(s, r);
      && Current(s') && s'.values == [r.replacement] && s'.slots == s.slots && s'.head == [[r]] + s.head
      && s'.cells == (if r.replaced.Some? && s.values[0] != r.replacement then s.cells[r.replaced.value := s.values[0]]
                      else s.cells)
  {
    assert FirstIn([r], s.slots[0].symbol.value, 0) == Some(0);
    assert ([[r]] + s.head)[0] == [r];
  }

  lemma NoCalls(slot: Slot)
    ensures Expected([], slot) == slot.original
  {
  }

  lemma MatchIs(head: seq<Call>, slot: Slot, m: Option<Match>)
    requires m == if slot.symbol.None? then None else Newest(head, slot.symbol.value)
    ensures m == SlotMatch(head, slot)
  {
  }

  /** Rebinding slot i leaves the others alone. */
  lemma OthersStay(s: State, i: nat, prior: seq<Call>)
    requires |s.values| == |s.slots| && i < |s.slots| && Applied(s, s.head, 0, i) && Applied(s, prior, i, |s.slots|)
    requires Rebind(s, i).values[i] == Expected(s.head, s.slots[i])
    ensures Applied(Rebind(s, i), s.head, 0, i + 1) && Applied(Rebind(s, i), prior, i + 1, |s.slots|)
  {
    hide SlotMatch, Expected;
  }

  lemma AppliedLoaded(s: State, image: seq<Slot>)
    requires |s.values| == |s.slots| && Applied(s, s.head, 0, |s.slots|)
    ensures Applied(Loaded(s, image), s.head, 0, |s.slots|)
    ensures Applied(Loaded(s, image), [], |s.slots|, |s.slots| + |image|)
  {
    hide SlotMatch, Expected;
    forall i | |s.slots| <= i < |s.slots| + |image| ensures Loaded(s, image).values[i]
      == Expected([], Loaded(s, image).slots[i])
    {
      NoCalls(Loaded(s, image).slots[i]);
    }
  }
}
