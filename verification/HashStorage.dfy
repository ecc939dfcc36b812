/** Filling the hash array of a code directory in place. */
module HashStorage {
  import opened Bytes
  import opened Options
  import opened SuperBlob
  import opened Tables
  import opened CodeDirectory

  /** Cell c of an array of h-byte cells. */
  ghost predicate CellIs(bytes: seq<byte>, h: nat, c: nat, v: seq<byte>)
  {
    c * h + h <= |bytes| && bytes[c * h..c * h + h] == v
  }

  lemma CellsApart(h: nat, c: nat, d: nat)
    requires c < d
    ensures c * h + h <= d * h
  {
    assert d * h == (c + 1) * h + (d - c - 1) * h;
  }

  lemma StoreCell(bytes: seq<byte>, h: nat, c: nat, v: seq<byte>, d: nat)
    requires c * h + h <= |bytes| && |v| == h && d * h + h <= |bytes|
    ensures d * h + h <= |Splice(bytes, c * h, v)|
    ensures Splice(bytes, c * h, v)[d * h..d * h + h] == if d == c then v else bytes[d * h..d * h + h]
  {
    if d < c {
      CellsApart(h, d, c);
    } else if c < d {
      CellsApart(h, c, d);
    }
  }

  /** memcpy of one hash. */
  method Store(storage: array<byte>, at: nat, hash: seq<byte>)
    requires at + |hash| <= storage.Length
    modifies storage
    ensures storage[..] == Splice(old(storage[..]), at, hash)
  {
    for i := 0 to |hash|
      invariant storage[at..at + i] == hash[..i]
      invariant forall j :: 0 <= j < storage.Length && !(at <= j < at + i) ==> storage[j] == old(storage[j])
    {
      storage[at + i] := hash[i];
    }
    assert forall j :: at <= j < at + |hash| ==> storage[j] == storage[at..at + |hash|][j - at];
  }

  lemma BlobAdded(q: Request, a: Algorithm, blobs: Blobs, i: nat, k: uint32)
    requires Hashable(blobs) && Sorted(blobs) && i < |blobs|
    ensures SlotHash(q, a, blobs[..i + 1], [], k)
         == if k == blobs[i].slot then Digest(q.digests, a, Hashed(blobs[i].value))
           else SlotHash(q, a, blobs[..i], [], k)
  {
    hide Digest, Hashed;
    FreshSlot(blobs, i);
    FindSnoc(blobs[..i], blobs[i], k);
    assert Find<Hash>([], k) == None;
  }

  lemma PostAdded(q: Request, a: Algorithm, blobs: Blobs, posts: Table<Hash>, i: nat, k: uint32)
    requires Hashable(blobs) && Sorted(posts) && i < |posts|
    ensures SlotHash(q, a, blobs, posts[..i + 1], k)
         == if k == posts[i].slot then Of(posts[i].value, a) else SlotHash(q, a, blobs, posts[..i], k)
  {
    hide Digest, Hashed, Of;
    FreshSlot(posts, i);
    FindSnoc(posts[..i], posts[i], k);
  }

  lemma {:induction false} Assemble(q: Request, a: Algorithm, blobs: Blobs, posts: Table<Hash>, s: Slice,
                                    bytes: seq<byte>, n: nat)
    requires Hashable(blobs) && ValidSlice(s) && n <= Special(blobs, posts) + Pages(s.limit)
    requires 0 <= n * HashSize(a) <= |bytes|
    requires forall c {:trigger Cell(q, a, blobs, posts, s, c)} :: 0 <= c < n ==>
      CellIs(bytes, HashSize(a), c, Cell(q, a, blobs, posts, s, c))
    ensures bytes[..n * HashSize(a)] == Cells(q, a, blobs, posts, s, n)
  {
    hide Cell, Cells, HashSize, Special, Pages, Hashable, ValidSlice;
    CellsStep(q, a, blobs, posts, s, n);
    if n > 0 {
      var h := HashSize(a);
      assert n * h == (n - 1) * h + h;
      Assemble(q, a, blobs, posts, s, bytes, n - 1);
      assert CellIs(bytes, h, n - 1, Cell(q, a, blobs, posts, s, n - 1));
      TakeMore(bytes, (n - 1) * h, h);
    }
  }

  lemma CellsStep(q: Request, a: Algorithm, blobs: Blobs, posts: Table<Hash>, s: Slice, n: nat)
    requires Hashable(blobs) && ValidSlice(s) && n <= Special(blobs, posts) + Pages(s.limit)
    ensures n == 0 ==> Cells(q, a, blobs, posts, s, n) == []
    ensures n > 0 ==>
      Cells(q, a, blobs, posts, s, n) == Cells(q, a, blobs, posts, s, n - 1) + Cell(q, a, blobs, posts, s, n - 1)
  {
    hide Cell, HashSize, Special, Pages, Hashable, ValidSlice;
  }

  lemma TakeMore(bytes: seq<byte>, at: nat, h: nat)
    requires at + h <= |bytes|
    ensures bytes[..at + h] == bytes[..at] + bytes[at..at + h]
  {
  }

  method MaxKey<T>(t: Table<T>, from: uint32) returns (special: uint32)
    ensures special == if MaxSlot(t) > from then MaxSlot(t) else from
  {
    hide MaxSlot;
    special := from;
    assert t[..0] == [];
    assert MaxSlot<T>([]) == 0;
    for i := 0 to |t|
      invariant special == if MaxSlot(t[..i]) > from then MaxSlot(t[..i]) else from
    {
      MaxSnoc(t[..i], t[i]);
      assert t[..i + 1] == t[..i] + [t[i]];
      special := if special < t[i].slot then t[i].slot else special;
    }
    assert t[..|t|] == t;
  }

  lemma WithinStorage(h: nat, c: nat, n: nat)
    requires c < n
    ensures c * h + h <= n * h
  {
    CellsApart(h, c, n);
  }

  /** Cell c holds the hash of special slot special - c, as far as these blobs and
      posts are concerned. */
  ghost predicate SlotDone(bytes: seq<byte>, q: Request, a: Algorithm, blobs: Blobs, posts: Table<Hash>,
                           special: uint32, c: nat)
    requires Hashable(blobs) && c < special
  {
    CellIs(bytes, HashSize(a), c, SlotHash(q, a, blobs, posts, special - c))
  }

  ghost predicate SlotsDone(bytes: seq<byte>, q: Request, a: Algorithm, blobs: Blobs, posts: Table<Hash>,
                            special: uint32)
    requires Hashable(blobs)
  {
    forall c: nat :: c < special ==> SlotDone(bytes, q, a, blobs, posts, special, c)
  }

  function BlobHash(q: Request, a: Algorithm, blobs: Blobs, i: nat): (h: seq<byte>)
    requires i < |blobs| && |blobs[i].value| >= 8 && Get32Big(blobs[i].value, 4) <= |blobs[i].value|
    ensures |h| == HashSize(a)
  {
    Digest(q.digests, a, Hashed(blobs[i].value))
  }

  lemma BlobStored(bytes: seq<byte>, bytes': seq<byte>, q: Request, a: Algorithm, blobs: Blobs, i: nat,
                   special: uint32, at: nat)
    requires Hashable(blobs) && Sorted(blobs) && i < |blobs| && at == special - blobs[i].slot
      && special * HashSize(a) <= |bytes|
    requires at * HashSize(a) + HashSize(a) <= |bytes|
      && bytes' == Splice(bytes, at * HashSize(a), BlobHash(q, a, blobs, i))
    requires SlotsDone(bytes, q, a, blobs[..i], [], special)
    ensures SlotsDone(bytes', q, a, blobs[..i + 1], [], special)
  {
    hide HashSize, SlotHash, Digest, Hashed, Splice, Get32Big;
    forall c: nat {:trigger SlotDone(bytes', q, a, blobs[..i + 1], [], special, c)} | c < special
      ensures SlotDone(bytes', q, a, blobs[..i + 1], [], special, c)
    {
      assert SlotDone(bytes, q, a, blobs[..i], [], special, c);
      BlobAdded(q, a, blobs, i, special - c);
      StoreCell(bytes, HashSize(a), at, BlobHash(q, a, blobs, i), c);
    }
  }

  lemma PostStored(bytes: seq<byte>, bytes': seq<byte>, q: Request, a: Algorithm, blobs: Blobs, posts: Table<Hash>,
                   j: nat,
                   special: uint32, at: nat)
    requires Hashable(blobs) && Sorted(posts) && j < |posts| && at == special - posts[j].slot
      && special * HashSize(a) <= |bytes|
    requires at * HashSize(a) + HashSize(a) <= |bytes|
      && bytes' == Splice(bytes, at * HashSize(a), Of(posts[j].value, a))
    requires SlotsDone(bytes, q, a, blobs, posts[..j], special)
    ensures SlotsDone(bytes', q, a, blobs, posts[..j + 1], special)
  {
    hide HashSize, SlotHash, Of, Splice, Hashable;
    forall c: nat {:trigger SlotDone(bytes', q, a, blobs, posts[..j + 1], special, c)} | c < special
      ensures SlotDone(bytes', q, a, blobs, posts[..j + 1], special, c)
    {
      assert SlotDone(bytes, q, a, blobs, posts[..j], special, c);
      PostAdded(q, a, blobs, posts, j, special - c);
      StoreCell(bytes, HashSize(a), at, Of(posts[j].value, a), c);
    }
  }

  ghost predicate CellDone(bytes: seq<byte>, q: Request, a: Algorithm, blobs: Blobs, posts: Table<Hash>, s: Slice,
                           c: nat)
    requires Hashable(blobs) && ValidSlice(s) && c < Special(blobs, posts) + Pages(s.limit)
  {
    CellIs(bytes, HashSize(a), c, Cell(q, a, blobs, posts, s, c))
  }

  /** The first n cells are final. */
  ghost predicate CellsDone(bytes: seq<byte>, q: Request, a: Algorithm, blobs: Blobs, posts: Table<Hash>, s: Slice,
                            n: nat)
    requires Hashable(blobs) && ValidSlice(s) && n <= Special(blobs, posts) + Pages(s.limit)
  {
    forall c: nat :: c < n ==> CellDone(bytes, q, a, blobs, posts, s, c)
  }

  lemma SlotsAreCells(bytes: seq<byte>, q: Request, a: Algorithm, blobs: Blobs, posts: Table<Hash>, s: Slice)
    requires Hashable(blobs) && ValidSlice(s) && SlotsDone(bytes, q, a, blobs, posts, Special(blobs, posts))
    ensures CellsDone(bytes, q, a, blobs, posts, s, Special(blobs, posts))
  {
    hide HashSize, SlotHash, Special, CellIs;
    forall c: nat | c < Special(blobs, posts) ensures CellDone(bytes, q, a, blobs, posts, s, c)
    {
      assert SlotDone(bytes, q, a, blobs, posts, Special(blobs, posts), c);
    }
  }

  lemma PageStored(bytes: seq<byte>, bytes': seq<byte>, q: Request, a: Algorithm, blobs: Blobs, posts: Table<Hash>,
                   s: Slice, i: nat,
                   at: nat)
    requires Hashable(blobs) && ValidSlice(s) && i < Pages(s.limit) && at == Special(blobs, posts) + i
    requires |bytes| == (Special(blobs, posts) + Pages(s.limit)) * HashSize(a)
    requires at * HashSize(a) + HashSize(a) <= |bytes|
    requires bytes' == Splice(bytes, at * HashSize(a), Digest(q.digests, a, PageBytes(s, i)))
    requires CellsDone(bytes, q, a, blobs, posts, s, at)
    ensures CellsDone(bytes', q, a, blobs, posts, s, at + 1)
  {
    hide HashSize, SlotHash, Special, Digest, PageBytes, Splice, Pages, Hashable;
    forall c: nat {:trigger CellDone(bytes', q, a, blobs, posts, s, c)} | c < at + 1
      ensures CellDone(bytes', q, a, blobs, posts, s, c)
    {
      WithinStorage(HashSize(a), c, Special(blobs, posts) + Pages(s.limit));
      StoreCell(bytes, HashSize(a), at, Digest(q.digests, a, PageBytes(s, i)), c);
      assert c < at ==> CellDone(bytes, q, a, blobs, posts, s, c);
    }
  }

  lemma ZeroCells(bytes: seq<byte>, q: Request, a: Algorithm, special: uint32, n: nat)
    requires special < n && |bytes| == n * HashSize(a) && bytes == Zeros(|bytes|)
    ensures SlotsDone(bytes, q, a, [], [], special)
  {
    hide HashSize;
    forall c: nat | c < special ensures SlotDone(bytes, q, a, [], [], special, c)
    {
      WithinStorage(HashSize(a), c, n);
      assert Find<Hash>([], special - c) == None && Find<seq<byte>>([], special - c) == None;
      assert bytes[c * HashSize(a)..c * HashSize(a) + HashSize(a)] == Zeros(HashSize(a));
    }
  }

  method FillBlobs(storage: array<byte>, q: Request, a: Algorithm, blobs: Blobs, special: uint32, n: nat)
    requires Hashable(blobs) && Sorted(blobs) && (forall i :: 0 <= i < |blobs| ==> blobs[i].slot <= special)
      && special < n
    requires storage.Length == n * HashSize(a) && storage[..] == Zeros(storage.Length)
    modifies storage
    ensures SlotsDone(storage[..], q, a, blobs, [], special)
  {
    hide HashSize, SlotHash, Digest, Hashed, SlotsDone, Splice, Get32Big;
    ZeroCells(storage[..], q, a, special, n);
    assert blobs[..0] == [];
    for i := 0 to |blobs|
      invariant SlotsDone(storage[..], q, a, blobs[..i], [], special)
    {
      ghost var before := storage[..];
      var at := special - blobs[i].slot;
      WithinStorage(HashSize(a), at, n);
      WithinStorage(HashSize(a), special, n);
      Store(storage, at * HashSize(a), BlobHash(q, a, blobs, i));
      BlobStored(before, storage[..], q, a, blobs, i, special, at);
    }
    assert blobs[..|blobs|] == blobs;
  }

  method FillPosts(storage: array<byte>, q: Request, a: Algorithm, blobs: Blobs, posts: Table<Hash>, special: uint32,
                   n: nat)
    requires Hashable(blobs) && Sorted(posts) && (forall j :: 0 <= j < |posts| ==> posts[j].slot <= special)
      && special < n
    requires storage.Length == n * HashSize(a) && SlotsDone(storage[..], q, a, blobs, [], special)
    modifies storage
    ensures SlotsDone(storage[..], q, a, blobs, posts, special)
  {
    hide HashSize, SlotHash, Of, SlotsDone, Splice, Hashable;
    assert posts[..0] == [];
    for j := 0 to |posts|
      invariant SlotsDone(storage[..], q, a, blobs, posts[..j], special)
    {
      ghost var before := storage[..];
      var at := special - posts[j].slot;
      WithinStorage(HashSize(a), at, n);
      WithinStorage(HashSize(a), special, n);
      Store(storage, at * HashSize(a), Of(posts[j].value, a));
      PostStored(before, storage[..], q, a, blobs, posts, j, special, at);
    }
    assert posts[..|posts|] == posts;
  }

  method FillPages(storage: array<byte>, q: Request, a: Algorithm, ghost blobs: Blobs, ghost posts: Table<Hash>,
                   s: Slice,
                   special: uint32, normal: nat)
    requires Hashable(blobs) && ValidSlice(s) && special == Special(blobs, posts) && normal == Pages(s.limit)
    requires storage.Length == (special + normal) * HashSize(a)
      && CellsDone(storage[..], q, a, blobs, posts, s, special)
    modifies storage
    ensures CellsDone(storage[..], q, a, blobs, posts, s, special + normal)
  {
    hide HashSize, Digest, PageBytes, CellsDone, Special, Splice, Pages, Hashable;
    for i := 0 to normal
      invariant CellsDone(storage[..], q, a, blobs, posts, s, special + i)
    {
      ghost var before := storage[..];
      WithinStorage(HashSize(a), special + i, special + normal);
      Store(storage, (special + i) * HashSize(a), Digest(q.digests, a, PageBytes(s, i)));
      PageStored(before, storage[..], q, a, blobs, posts, s, i, special + i);
    }
  }

  method NewStorage(cells: nat, a: Algorithm) returns (storage: array<byte>)
    ensures fresh(storage) && storage.Length == cells * HashSize(a) && storage[..] == Zeros(storage.Length)
  {
    hide HashSize;
    storage := new byte[cells * HashSize(a)](_ => 0);
  }

  lemma SomePage(s: Slice)
    requires ValidSlice(s)
    ensures Pages(s.limit) > 0
  {
  }

  /** Blobs first, then the posted hashes over them, then the pages: a write to slot 0
      lands on the first page's cell and is always overwritten. */
  method Fill(q: Request, a: Algorithm, blobs: Blobs, posts: Table<Hash>, s: Slice)
    returns (storage: array<byte>, special: uint32)
    requires Hashable(blobs) && Sorted(blobs) && Sorted(posts) && ValidSlice(s)
    ensures fresh(storage) && special == Special(blobs, posts)
    ensures storage[..] == Cells(q, a, blobs, posts, s, Special(blobs, posts) + Pages(s.limit))
  {
    hide HashSize, SlotHash, PageBytes, Cells, SlotsDone, CellsDone, Hashable, Sorted, MaxSlot, Pages;
    hide ValidSlice, Zeros;
    special := MaxKey(blobs, 0);
    special := MaxKey(posts, special);
    SomePage(s);
    var normal := Pages(s.limit);
    storage := NewStorage(special + normal, a);
    FillBlobs(storage, q, a, blobs, special, special + normal);
    FillPosts(storage, q, a, blobs, posts, special, special + normal);
    SlotsAreCells(storage[..], q, a, blobs, posts, s);
    FillPages(storage, q, a, blobs, posts, s, special, normal);
    AllDone(storage[..], q, a, blobs, posts, s);
  }

  lemma AllDone(bytes: seq<byte>, q: Request, a: Algorithm, blobs: Blobs, posts: Table<Hash>, s: Slice)
    requires Hashable(blobs) && ValidSlice(s) && |bytes| == (Special(blobs, posts) + Pages(s.limit)) * HashSize(a)
    requires CellsDone(bytes, q, a, blobs, posts, s, Special(blobs, posts) + Pages(s.limit))
    ensures bytes == Cells(q, a, blobs, posts, s, Special(blobs, posts) + Pages(s.limit))
  {
    hide HashSize, Cell, Cells, Special, Pages, Hashable;
    var n := Special(blobs, posts) + Pages(s.limit);
    forall c {:trigger Cell(q, a, blobs, posts, s, c)} | 0 <= c < n
      ensures CellIs(bytes, HashSize(a), c, Cell(q, a, blobs, posts, s, c))
    {
      assert CellDone(bytes, q, a, blobs, posts, s, c);
    }
    Assemble(q, a, blobs, posts, s, bytes, n);
  }
}
