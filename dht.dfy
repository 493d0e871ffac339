/** The dynamic open-addressing hash table of dht.c: byte-string keys, each
    remembered with the number of keys inserted before it (its order). */
module Dht {
  import opened Text

  /** SuperFastHashModified computes in uint32_t. */
  type Hash32 = h: int | 0 <= h < 0x1_0000_0000

  /** A probe loop gives up once its counter, tested before it is incremented, exceeds this. */
  const MAX_ITERS: nat := 1000

  /** Hence the probes examined by one loop are those numbered 0 .. LAST_PROBE. */
  const LAST_PROBE: nat := MAX_ITERS + 1

  /** A slot is free (order FREESLOT in the C code) or holds a key and its order. */
  datatype Slot = Free | Occupied(order: nat, key: Bytes)

  // ---------------------------------------------------------------------------
  // SuperFastHashModified

  /** get16bits: two bytes, little end first. */
  function Get16(lo: Byte, hi: Byte): bv32
  {
    ((hi as bv32) << 8) + (lo as bv32)
  }

  /** A byte read as `signed char` and converted to uint32_t. */
  function SignedChar(b: Byte): bv32
  {
    if b < 128 then b as bv32 else (b as bv32) | 0xFFFF_FF00
  }

  /** The main loop, one round per four bytes. */
  function HashBlocks(data: Bytes, hash: bv32): bv32
    decreases |data|
  {
    if |data| < 4 then hash
    else HashBlocks(data[4..], Round(hash, data[..4]))
  }

  /** One round of the main loop, over one four-byte block. */
  function Round(hash: bv32, block: Bytes): bv32
    requires |block| == 4
  {
    var h1 := hash + Get16(block[0], block[1]);
    var tmp := (Get16(block[2], block[3]) << 11) ^ h1;
    var h2 := (h1 << 16) ^ tmp;
    h2 + (h2 >> 11)
  }

  /** The main loop reads only the whole four-byte blocks: the last
      `len & 3` bytes are left to the end cases. */
  lemma {:induction false} HashBlocksWhole(data: Bytes, hash: bv32)
    ensures HashBlocks(data, hash) == HashBlocks(data[..|data| - |data| % 4], hash)
    decreases |data|
  {
    var k := |data| - |data| % 4;
    if |data| >= 4 {
      var rest := data[4..];
      assert |rest| % 4 == |data| % 4 && 4 <= k;
      HashBlocksWhole(rest, Round(hash, data[..4]));
      assert data[..k][..4] == data[..4];
      assert data[..k][4..] == rest[..|rest| - |rest| % 4];
    } else {
      assert k == 0;
    }
  }

  /** The end cases, for the last `len & 3` bytes. */
  function HashTail(rest: Bytes, hash: bv32): (h: bv32)
    requires |rest| < 4
    ensures |rest| == 0 ==> h == hash
  {
    if |rest| == 3 then
      var h1 := hash + Get16(rest[0], rest[1]);
      var h2 := h1 ^ (h1 << 16);
      var h3 := h2 ^ (SignedChar(rest[2]) << 18);
      h3 + (h3 >> 11)
    else if |rest| == 2 then
      var h1 := hash + Get16(rest[0], rest[1]);
      var h2 := h1 ^ (h1 << 11);
      h2 + (h2 >> 17)
    else if |rest| == 1 then
      var h1 := hash + SignedChar(rest[0]);
      var h2 := h1 ^ (h1 << 10);
      h2 + (h2 >> 1)
    else hash
  }

  /** The final "avalanching" shifts. */
  function Avalanche(hash: bv32): bv32
  {
    var h1 := hash ^ (hash << 3);
    var h2 := h1 + (h1 >> 5);
    var h3 := h2 ^ (h2 << 4);
    var h4 := h3 + (h3 >> 17);
    var h5 := h4 ^ (h4 << 25);
    h5 + (h5 >> 6)
  }

  /** Paul Hsieh's SuperFastHash, taking the initial hash as a parameter; an empty
      key hashes to 0 whatever the seed. */
  function SuperFastHashModified(data: Bytes, seed: bv32): (h: bv32)
    ensures |data| == 0 ==> h == 0
  {
    if |data| == 0 then 0
    else Avalanche(HashTail(data[|data| - |data| % 4..], HashBlocks(data, seed)))
  }

  /** The hash function every table of dht.c uses, as a value of the type the
      table is verified for: the proofs below hold for any such function. */
  const SFH: (Bytes, Hash32) -> Hash32 :=
    (key: Bytes, seed: Hash32) => SuperFastHashModified(key, seed as bv32) as int

  // ---------------------------------------------------------------------------
  // Probe sequences

  /** The hash of the j-th probe for `key`: `hash` (seeded with the key's length,
      as uint32_t) for the first, then `rehash` seeded with the previous hash. */
  function ProbeHash(sfh: (Bytes, Hash32) -> Hash32, key: Bytes, j: nat): Hash32
  {
    if j == 0 then sfh(key, |key| % 0x1_0000_0000) else sfh(key, ProbeHash(sfh, key, j - 1))
  }

  /** The slot the j-th probe lands on in a table of `n` slots. */
  function ProbeSlot(sfh: (Bytes, Hash32) -> Hash32, key: Bytes, j: nat, n: int): (i: int)
    requires n > 0
    ensures 0 <= i < n
  {
    ProbeHash(sfh, key, j) % n
  }

  /** The first probe, from the j-th on and within the cap, that lands on a free
      slot of `s`; None when every remaining probe hits an occupied slot. */
  function FirstFree(sfh: (Bytes, Hash32) -> Hash32, s: seq<Slot>, key: Bytes, j: nat): (r: Option<nat>)
    requires |s| > 0
    ensures r.Some? ==> j <= r.value <= LAST_PROBE && s[ProbeSlot(sfh, key, r.value, |s|)] == Free
    decreases LAST_PROBE + 1 - j
  {
    if j > LAST_PROBE then None
    else if s[ProbeSlot(sfh, key, j, |s|)] == Free then Some(j)
    else FirstFree(sfh, s, key, j + 1)
  }

  /** Probes that hit occupied slots do not change where the first free one is. */
  lemma {:induction false} FirstFreeSkip(sfh: (Bytes, Hash32) -> Hash32, s: seq<Slot>, key: Bytes, j: nat, n: nat)
    requires |s| > 0 && j <= n <= LAST_PROBE + 1
    requires forall i :: j <= i < n ==> s[ProbeSlot(sfh, key, i, |s|)].Occupied?
    ensures FirstFree(sfh, s, key, j) == FirstFree(sfh, s, key, n)
    decreases n - j
  {
    if j < n {
      FirstFreeSkip(sfh, s, key, j + 1, n);
    }
  }

  /** Conversely, every probe before the first free one hits an occupied slot. */
  lemma {:induction false} FirstFreeOccupiedBefore(sfh: (Bytes, Hash32) -> Hash32, s: seq<Slot>, key: Bytes, j: nat)
    requires |s| > 0 && FirstFree(sfh, s, key, j).Some?
    ensures forall i :: j <= i < FirstFree(sfh, s, key, j).value ==> s[ProbeSlot(sfh, key, i, |s|)].Occupied?
    decreases LAST_PROBE + 1 - j
  {
    if s[ProbeSlot(sfh, key, j, |s|)] != Free {
      FirstFreeOccupiedBefore(sfh, s, key, j + 1);
    }
  }

  // ---------------------------------------------------------------------------
  // Slot tables as values

  /** A table of n free slots. */
  function Frees(n: nat): (r: seq<Slot>)
    ensures |r| == n && forall i :: 0 <= i < n ==> r[i] == Free
  {
    seq(n, _ => Free)
  }

  /** The copy loop of the grow step, from old slot ii on: each occupied slot goes to
      the first free slot of its key's probe sequence in `t`; None when a key finds
      none within the cap. */
  function Rehash(sfh: (Bytes, Hash32) -> Hash32, s: seq<Slot>, t: seq<Slot>, ii: nat): (r: Option<seq<Slot>>)
    requires |t| > 0 && ii <= |s|
    ensures r.Some? ==> |r.value| == |t|
    decreases |s| - ii
  {
    if ii == |s| then Some(t)
    else if s[ii].Free? then Rehash(sfh, s, t, ii + 1)
    else match FirstFree(sfh, t, s[ii].key, 0)
      case None => None
      case Some(j) => Rehash(sfh, s, t[ProbeSlot(sfh, s[ii].key, j, |t|) := s[ii]], ii + 1)
  }

  /** A key whose probes within the cap all hit occupied slots of `t` stops the copy. */
  lemma RehashStuck(sfh: (Bytes, Hash32) -> Hash32, s: seq<Slot>, t: seq<Slot>, ii: nat)
    requires |t| > 0 && ii < |s| && s[ii].Occupied?
    requires forall j :: 0 <= j < LAST_PROBE + 1 ==> t[ProbeSlot(sfh, s[ii].key, j, |t|)].Occupied?
    ensures Rehash(sfh, s, t, ii) == None
  {
    FirstFreeSkip(sfh, t, s[ii].key, 0, LAST_PROBE + 1);
  }

  /** Otherwise the key goes to the free slot its probe `iters` reaches, when
      every earlier probe hits an occupied slot. */
  lemma RehashPlace(sfh: (Bytes, Hash32) -> Hash32, s: seq<Slot>, t: seq<Slot>, ii: nat, idx: nat, iters: nat)
    requires |t| > 0 && ii < |s| && s[ii].Occupied?
    requires idx < |t| && t[idx] == Free && iters <= LAST_PROBE && idx == ProbeSlot(sfh, s[ii].key, iters, |t|)
    requires forall j :: 0 <= j < iters ==> t[ProbeSlot(sfh, s[ii].key, j, |t|)].Occupied?
    ensures Rehash(sfh, s, t, ii) == Rehash(sfh, s, t[idx := s[ii]], ii + 1)
  {
    FirstFreeSkip(sfh, t, s[ii].key, 0, iters);
  }

  /** The slots after a new key gets order `order` in its first free probe slot. */
  function PlaceNew(sfh: (Bytes, Hash32) -> Hash32, s: seq<Slot>, key: Bytes, order: nat): (r: seq<Slot>)
    requires |s| > 0 && FirstFree(sfh, s, key, 0).Some?
    ensures |r| == |s|
  {
    s[ProbeSlot(sfh, key, FirstFree(sfh, s, key, 0).value, |s|) := Occupied(order, key)]
  }

  /** The slots that are occupied, as (order, key) values. */
  function OccupiedSlots(s: seq<Slot>): set<Slot>
  {
    set i | 0 <= i < |s| && s[i].Occupied? :: s[i]
  }

  // ---------------------------------------------------------------------------
  // The layout invariant

  /** Orders 0 .. n-1 all placed. */
  function AllPlaced(n: nat): (r: seq<bool>)
    ensures |r| == n && forall o :: 0 <= o < n ==> r[o]
  {
    seq(n, _ => true)
  }

  /** The slots `s` hold exactly the keys whose orders are marked in `placed`: key
      `keys[o]` sits at `at[o]`, which its probe sequence reaches at probe `step[o]`
      (within the probe cap), and every earlier probe of that sequence hits an
      occupied slot. */
  ghost predicate Layout(sfh: (Bytes, Hash32) -> Hash32, s: seq<Slot>, keys: seq<Bytes>,
                         at: seq<nat>, step: seq<nat>, placed: seq<bool>)
  {
    && |s| > 0 && |at| == |keys| && |step| == |keys| && |placed| == |keys|
    && (forall o :: 0 <= o < |keys| && placed[o] ==>
          && at[o] < |s| && s[at[o]] == Occupied(o, keys[o])
          && step[o] <= LAST_PROBE && at[o] == ProbeSlot(sfh, keys[o], step[o], |s|))
    && (forall o, j :: 0 <= o < |keys| && placed[o] && 0 <= j < step[o] ==>
          s[ProbeSlot(sfh, keys[o], j, |s|)].Occupied?)
    && (forall i :: 0 <= i < |s| && s[i].Occupied? ==>
          s[i].order < |keys| && placed[s[i].order] && at[s[i].order] == i)
  }

  /** Putting key keys2[o] into the free slot that its probe j reaches keeps the
      layout, for a `placed2` that adds o to `placed`. */
  lemma Place(sfh: (Bytes, Hash32) -> Hash32, s: seq<Slot>, keys: seq<Bytes>, at: seq<nat>, step: seq<nat>,
              placed: seq<bool>, keys2: seq<Bytes>, at2: seq<nat>, step2: seq<nat>, placed2: seq<bool>,
              o: nat, idx: nat, j: nat)
    requires Layout(sfh, s, keys, at, step, placed)
    requires |at2| == |keys2| && |step2| == |keys2| && |placed2| == |keys2| && o < |keys2| && placed2[o]
    requires forall p :: 0 <= p < |keys| && placed[p] ==>
               p < |keys2| && placed2[p] && p != o && keys2[p] == keys[p] && at2[p] == at[p] && step2[p] == step[p]
    requires forall p :: 0 <= p < |keys2| && placed2[p] && p != o ==> p < |keys| && placed[p]
    requires idx < |s| && s[idx] == Free && at2[o] == idx && step2[o] == j <= LAST_PROBE
    requires idx == ProbeSlot(sfh, keys2[o], j, |s|)
    requires forall i :: 0 <= i < j ==> s[ProbeSlot(sfh, keys2[o], i, |s|)].Occupied?
    ensures Layout(sfh, s[idx := Occupied(o, keys2[o])], keys2, at2, step2, placed2)
  {
    var s2 := s[idx := Occupied(o, keys2[o])];
    forall p | 0 <= p < |keys2| && placed2[p]
      ensures at2[p] < |s2| && s2[at2[p]] == Occupied(p, keys2[p])
    {
      if p != o {
        assert s[at[p]] != Free;
      }
    }
    forall i | 0 <= i < |s2| && s2[i].Occupied?
      ensures s2[i].order < |keys2| && placed2[s2[i].order] && at2[s2[i].order] == i
    {
      if i != idx {
        assert s2[i] == s[i];
      }
    }
  }

  /** Under a layout holding every order, the order placed at slot i is the one the
      slot records, and none is when it is free. */
  lemma OrderAt(sfh: (Bytes, Hash32) -> Hash32, s: seq<Slot>, keys: seq<Bytes>, at: seq<nat>, step: seq<nat>,
                i: nat)
    requires Layout(sfh, s, keys, at, step, AllPlaced(|keys|)) && i < |s|
    ensures forall o :: 0 <= o < |keys| ==> (at[o] == i <==> s[i] == Occupied(o, keys[o]))
    ensures forall o :: 0 <= o < |keys| ==> at[o] < |s|
    ensures s[i].Occupied? ==> s[i].order < |keys| && at[s[i].order] == i && s[i] == Occupied(s[i].order, keys[s[i].order])
  {
  }

  /** `index` maps each key to its order: it is the inverse of `keys`, so no key
      has two orders. */
  ghost predicate Indexes(keys: seq<Bytes>, index: map<Bytes, nat>)
  {
    && (forall o :: 0 <= o < |keys| ==> keys[o] in index && index[keys[o]] == o)
    && (forall k :: k in index ==> index[k] < |keys| && keys[index[k]] == k)
  }

  lemma IndexesAppend(keys: seq<Bytes>, index: map<Bytes, nat>, key: Bytes)
    requires Indexes(keys, index) && key !in index
    ensures Indexes(keys + [key], index[key := |keys|])
  {
    var keys2, index2 := keys + [key], index[key := |keys|];
    forall o | 0 <= o < |keys2|
      ensures keys2[o] in index2 && index2[keys2[o]] == o
    {
      if o < |keys| {
        assert keys2[o] == keys[o] && keys[o] in index;
      }
    }
  }

  /** The slots hold every inserted key, in the layout above, and `index` inverts `keys`. */
  ghost predicate Stored(sfh: (Bytes, Hash32) -> Hash32, s: seq<Slot>, keys: seq<Bytes>, at: seq<nat>,
                         step: seq<nat>, index: map<Bytes, nat>)
  {
    Indexes(keys, index) && Layout(sfh, s, keys, at, step, AllPlaced(|keys|))
  }

  // ---------------------------------------------------------------------------
  // Counting slots

  /** The orders 0 .. n-1. */
  function Below(n: nat): (r: set<nat>)
    ensures forall o :: o in r <==> 0 <= o < n
    ensures |r| == n
  {
    if n == 0 then {}
    else
      var r0 := Below(n - 1);
      assert n - 1 !in r0;
      r0 + {n - 1}
  }

  lemma {:induction false} ImageCard(at: seq<nat>)
    requires forall o, p :: 0 <= o < p < |at| ==> at[o] != at[p]
    ensures |set o | 0 <= o < |at| :: at[o]| == |at|
  {
    if |at| > 0 {
      var init := at[..|at| - 1];
      ImageCard(init);
      assert (set o | 0 <= o < |at| :: at[o]) == (set o | 0 <= o < |init| :: init[o]) + {at[|at| - 1]};
    }
  }

  /** Pigeonhole: distinct slot indices below n that avoid a free slot are fewer than n. */
  lemma InjectiveBound(at: seq<nat>, n: nat, free: nat)
    requires free < n
    requires forall o :: 0 <= o < |at| ==> at[o] < n && at[o] != free
    requires forall o, p :: 0 <= o < p < |at| ==> at[o] != at[p]
    ensures |at| < n
  {
    var image := set o | 0 <= o < |at| :: at[o];
    var rest := Below(n) - {free};
    ImageCard(at);
    assert |rest| == n - 1;
    assert image <= rest;
    assert rest * image == image;
    assert |rest| == |rest - image| + |rest * image|;
  }

  /** While a layout holding every order leaves slot `free` free, there are fewer
      keys than slots. */
  lemma LayoutCount(sfh: (Bytes, Hash32) -> Hash32, s: seq<Slot>, keys: seq<Bytes>, at: seq<nat>, step: seq<nat>,
                    free: nat)
    requires Layout(sfh, s, keys, at, step, AllPlaced(|keys|)) && free < |s| && s[free] == Free
    ensures |keys| < |s|
  {
    forall o, p | 0 <= o < p < |at|
      ensures at[o] != at[p]
    {
      assert s[at[o]] == Occupied(o, keys[o]);
    }
    InjectiveBound(at, |s|, free);
  }

  /** Giving a new key the next order in the first free slot of its probe sequence
      keeps the layout of every order and keeps keys distinct. */
  lemma PutKeeps(sfh: (Bytes, Hash32) -> Hash32, s: seq<Slot>, keys: seq<Bytes>, at: seq<nat>, step: seq<nat>,
                 index: map<Bytes, nat>, key: Bytes, idx: nat, iters: nat)
    requires Stored(sfh, s, keys, at, step, index) && key !in keys
    requires idx < |s| && s[idx] == Free && iters <= LAST_PROBE && idx == ProbeSlot(sfh, key, iters, |s|)
    requires forall j :: 0 <= j < iters ==> s[ProbeSlot(sfh, key, j, |s|)].Occupied?
    ensures Stored(sfh, s[idx := Occupied(|keys|, key)], keys + [key], at + [idx], step + [iters],
                   index[key := |keys|])
    ensures |keys| < |s|
  {
    assert |keys| < |s| by {
      LayoutCount(sfh, s, keys, at, step, idx);
    }
    Place(sfh, s, keys, at, step, AllPlaced(|keys|), keys + [key], at + [idx], step + [iters],
          AllPlaced(|keys| + 1), |keys|, idx, iters);
    IndexesAppend(keys, index, key);
  }

  // ---------------------------------------------------------------------------
  // The probe loops

  datatype Probe = Found(idx: nat) | FreeAt(idx: nat, iters: nat) | GaveUp

  /** The probe loop shared by insertStr and getStringIndex: walk the probe
      sequence of `key` over `a` until a slot holding `key`, a free slot, or the cap. */
  method Search(sfh: (Bytes, Hash32) -> Hash32, a: array<Slot>, key: Bytes) returns (p: Probe)
    requires a.Length > 0
    ensures p.Found? ==> p.idx < a.Length && a[p.idx].Occupied? && a[p.idx].key == key
    ensures p.FreeAt? ==> p.idx < a.Length && a[p.idx] == Free && p.iters <= LAST_PROBE
    ensures p.FreeAt? ==> p.idx == ProbeSlot(sfh, key, p.iters, a.Length)
    ensures !p.Found? ==> forall j :: 0 <= j < (if p.FreeAt? then p.iters else LAST_PROBE + 1) ==>
              a[ProbeSlot(sfh, key, j, a.Length)].Occupied? && a[ProbeSlot(sfh, key, j, a.Length)].key != key
  {
    var h := sfh(key, |key| % 0x1_0000_0000);
    var iters := 0;
    var idx := h % a.Length;
    while a[idx] != Free
      invariant 0 <= iters <= LAST_PROBE
      invariant h == ProbeHash(sfh, key, iters) && idx == h % a.Length
      invariant forall j :: 0 <= j < iters ==>
                  a[ProbeSlot(sfh, key, j, a.Length)].Occupied? && a[ProbeSlot(sfh, key, j, a.Length)].key != key
      decreases LAST_PROBE - iters
    {
      if a[idx].key == key {
        return Found(idx);
      }
      h := sfh(key, h);
      if iters > MAX_ITERS {
        // warning ("... excessive looping in hash.")
        return GaveUp;
      }
      iters := iters + 1;
      idx := h % a.Length;
    }
    p := FreeAt(idx, iters);
  }

  /** The re-probe loop of the grow step: find a free slot of `a` for `key`. */
  method FindFree(sfh: (Bytes, Hash32) -> Hash32, a: array<Slot>, key: Bytes)
    returns (idx: int, iters: nat, ok: bool)
    requires a.Length > 0
    ensures ok ==> 0 <= idx < a.Length && a[idx] == Free && iters <= LAST_PROBE
    ensures ok ==> idx == ProbeSlot(sfh, key, iters, a.Length)
    ensures forall j :: 0 <= j < (if ok then iters else LAST_PROBE + 1) ==> a[ProbeSlot(sfh, key, j, a.Length)].Occupied?
  {
    var h := sfh(key, |key| % 0x1_0000_0000);
    iters := 0;
    idx := h % a.Length;
    while a[idx] != Free
      invariant 0 <= iters <= LAST_PROBE
      invariant h == ProbeHash(sfh, key, iters) && idx == h % a.Length
      invariant forall j :: 0 <= j < iters ==> a[ProbeSlot(sfh, key, j, a.Length)].Occupied?
      decreases LAST_PROBE - iters
    {
      h := sfh(key, h);
      if iters > MAX_ITERS {
        // warning ("dht.insertStr: excessive looping in hash.")
        ok := false;
        return;
      }
      iters := iters + 1;
      idx := h % a.Length;
    }
    ok := true;
  }

  /** The state of the copy loop before old slot `ii`: `t` holds, in a layout of
      its own, exactly the keys whose old slots come before `ii`. */
  ghost predicate Copied(sfh: (Bytes, Hash32) -> Hash32, keys: seq<Bytes>, at: seq<nat>, t: seq<Slot>,
                         at2: seq<nat>, step2: seq<nat>, placed: seq<bool>, ii: nat)
  {
    && Layout(sfh, t, keys, at2, step2, placed) && |at| == |keys|
    && (forall o :: 0 <= o < |keys| ==> (placed[o] <==> at[o] < ii))
  }

  /** Copying a free old slot changes nothing. */
  lemma CopySkip(sfh: (Bytes, Hash32) -> Hash32, s: seq<Slot>, keys: seq<Bytes>, at: seq<nat>, step: seq<nat>,
                 t: seq<Slot>, at2: seq<nat>, step2: seq<nat>, placed: seq<bool>, ii: nat)
    requires Layout(sfh, s, keys, at, step, AllPlaced(|keys|)) && ii < |s| && s[ii] == Free
    requires Copied(sfh, keys, at, t, at2, step2, placed, ii)
    ensures Copied(sfh, keys, at, t, at2, step2, placed, ii + 1)
  {
    OrderAt(sfh, s, keys, at, step, ii);
  }

  /** Copying an occupied old slot into the free slot found for its key. */
  lemma CopyOne(sfh: (Bytes, Hash32) -> Hash32, s: seq<Slot>, keys: seq<Bytes>, at: seq<nat>, step: seq<nat>,
                t: seq<Slot>, at2: seq<nat>, step2: seq<nat>, placed: seq<bool>, ii: nat, idx: nat, iters: nat)
    requires Layout(sfh, s, keys, at, step, AllPlaced(|keys|)) && ii < |s| && s[ii].Occupied?
    requires Copied(sfh, keys, at, t, at2, step2, placed, ii)
    requires idx < |t| && t[idx] == Free && iters <= LAST_PROBE && idx == ProbeSlot(sfh, s[ii].key, iters, |t|)
    requires forall j :: 0 <= j < iters ==> t[ProbeSlot(sfh, s[ii].key, j, |t|)].Occupied?
    ensures s[ii].order < |keys|
    ensures Copied(sfh, keys, at, t[idx := s[ii]], at2[s[ii].order := idx], step2[s[ii].order := iters],
                   placed[s[ii].order := true], ii + 1)
  {
    OrderAt(sfh, s, keys, at, step, ii);
    var o := s[ii].order;
    Place(sfh, t, keys, at2, step2, placed, keys, at2[o := idx], step2[o := iters], placed[o := true],
          o, idx, iters);
  }

  /** One round of the copy loop: old slot `ii` of `a`, when occupied, goes to the
      first free slot of its key's probe sequence in `b`; `ok` is false when there
      is none within the cap. */
  method CopyStep(sfh: (Bytes, Hash32) -> Hash32, a: array<Slot>, b: array<Slot>, ii: nat,
                  ghost keys: seq<Bytes>, ghost at: seq<nat>, ghost step: seq<nat>,
                  ghost at2: seq<nat>, ghost step2: seq<nat>, ghost placed: seq<bool>)
    returns (ok: bool, ghost at3: seq<nat>, ghost step3: seq<nat>, ghost placed3: seq<bool>)
    requires a != b && ii < a.Length && b.Length > 0
    requires Layout(sfh, a[..], keys, at, step, AllPlaced(|keys|))
    requires Copied(sfh, keys, at, b[..], at2, step2, placed, ii)
    modifies b
    ensures !ok ==> Rehash(sfh, a[..], old(b[..]), ii) == None
    ensures ok ==> Rehash(sfh, a[..], old(b[..]), ii) == Rehash(sfh, a[..], b[..], ii + 1)
    ensures ok ==> Copied(sfh, keys, at, b[..], at3, step3, placed3, ii + 1)
  {
    if a[ii] == Free {
      CopySkip(sfh, a[..], keys, at, step, b[..], at2, step2, placed, ii);
      return true, at2, step2, placed;
    }
    var idx, iters, found := FindFree(sfh, b, a[ii].key);
    if !found {
      // warning ("dht.insertStr: excessive looping in hash.")
      RehashStuck(sfh, a[..], b[..], ii);
      return false, at2, step2, placed;
    }
    RehashPlace(sfh, a[..], b[..], ii, idx, iters);
    CopyOne(sfh, a[..], keys, at, step, b[..], at2, step2, placed, ii, idx, iters);
    ghost var o := a[ii].order;
    ghost var t := b[..][idx := a[ii]];
    b[idx] := a[ii];
    assert b[..] == t;
    ok, at3, step3, placed3 := true, at2[o := idx], step2[o := iters], placed[o := true];
  }

  /** The copy loop of insertStr's grow step: every occupied slot of `a`, in slot
      order, goes to the first free slot of its key's probe sequence in a fresh
      table of twice the size. */
  method CopySlots(sfh: (Bytes, Hash32) -> Hash32, a: array<Slot>, ghost keys: seq<Bytes>,
                   ghost at: seq<nat>, ghost step: seq<nat>)
    returns (b: array<Slot>, ok: bool, ghost at2: seq<nat>, ghost step2: seq<nat>)
    requires a.Length > 0 && Layout(sfh, a[..], keys, at, step, AllPlaced(|keys|))
    ensures fresh(b) && b.Length == 2 * a.Length
    ensures ok == Rehash(sfh, a[..], Frees(2 * a.Length), 0).Some?
    ensures ok ==> b[..] == Rehash(sfh, a[..], Frees(2 * a.Length), 0).value
    ensures ok ==> Layout(sfh, b[..], keys, at2, step2, AllPlaced(|keys|))
  {
    b := new Slot[2 * a.Length](_ => Free);
    ghost var placed := seq(|keys|, _ => false);
    ghost var target := Rehash(sfh, a[..], Frees(2 * a.Length), 0);
    at2, step2 := at, step;
    assert b[..] == Frees(2 * a.Length);
    var ii := 0;
    while ii < a.Length
      invariant 0 <= ii <= a.Length && b.Length == 2 * a.Length
      invariant Rehash(sfh, a[..], b[..], ii) == target
      invariant Copied(sfh, keys, at, b[..], at2, step2, placed, ii)
    {
      var copied;
      copied, at2, step2, placed := CopyStep(sfh, a, b, ii, keys, at, step, at2, step2, placed);
      if !copied {
        return b, false, at2, step2;
      }
      ii := ii + 1;
    }
    assert placed == AllPlaced(|keys|);
    ok := true;
  }

  // ---------------------------------------------------------------------------
  // The table

  class DynHashTab {
    /** The hash function, SFH for every table dht.c makes. */
    const sfh: (Bytes, Hash32) -> Hash32
    var size: int
    var count: int
    var loadLimit: int
    var slot: array<Slot>

    /** keys[o] is the key inserted with order o. */
    ghost var keys: seq<Bytes>
    /** pos[o] is the slot holding keys[o]; steps[o] the probe that reached it. */
    ghost var pos: seq<nat>
    ghost var steps: seq<nat>
    /** index[k] is the order of key k, for every key inserted. */
    ghost var index: map<Bytes, nat>
    /** The contents of `slot`. */
    ghost var contents: seq<Slot>

    ghost predicate Valid()
      reads this, slot
    {
      && slot.Length == size && size > 0
      && loadLimit == size * 3 / 4
      && count == |keys|
      && slot[..] == contents
      && Stored(sfh, contents, keys, pos, steps, index)
    }

    /** newDynHashTab: `isize` free slots, nothing stored. */
    constructor (isize: int)
      requires isize > 0
      ensures Valid() && fresh(slot) && sfh == SFH
      ensures size == isize && count == 0 && loadLimit == isize * 3 / 4
      ensures keys == [] && slot[..] == Frees(isize)
    {
      sfh := SFH;
      size := isize;
      loadLimit := (isize * 3) / 4;
      count := 0;
      slot := new Slot[isize](_ => Free);
      keys, pos, steps, index := [], [], [], map[];
      contents := Frees(isize);
      new;
      assert slot[..] == contents;
    }

    /** If the first `n` probes for `key` hit other keys and probe `n`, when it is
        within the cap, is free, then `key` is not stored. */
    lemma NotStored(key: Bytes, n: nat)
      requires Valid() && n <= LAST_PROBE + 1
      requires forall j :: 0 <= j < n ==>
                 slot[ProbeSlot(sfh, key, j, size)].Occupied? && slot[ProbeSlot(sfh, key, j, size)].key != key
      requires n <= LAST_PROBE ==> slot[ProbeSlot(sfh, key, n, size)] == Free
      ensures key !in keys
    {
      forall o | 0 <= o < count
        ensures keys[o] != key
      {
        var s := steps[o];
        assert slot[ProbeSlot(sfh, keys[o], s, size)] == Occupied(o, keys[o]);
        if s < n {
          assert slot[ProbeSlot(sfh, key, s, size)].key != key;
        } else if s == n {
          assert slot[ProbeSlot(sfh, key, n, size)] == Free;
        } else {
          assert slot[ProbeSlot(sfh, keys[o], n, size)].Occupied?;
          assert slot[ProbeSlot(sfh, key, n, size)] == Free;
        }
      }
    }

    /** getStringIndex: the order of `key`, or -1 when it was never inserted. */
    method GetStringIndex(key: Bytes) returns (r: int)
      requires Valid() && NoNul(key)
      ensures r == -1 <==> key !in keys
      ensures r >= 0 ==> r < |keys| && keys[r] == key
    {
      var p := Search(sfh, slot, key);
      if p.Found? {
        r := slot[p.idx].order;
        assert slot[..][p.idx] == slot[p.idx];
      } else {
        r := -1;
        NotStored(key, if p.FreeAt? then p.iters else LAST_PROBE + 1);
      }
    }

    /** The occupied slots are exactly the inserted keys, each with its order, and
        no key is inserted twice. */
    lemma StoredSlots()
      requires Valid()
      ensures OccupiedSlots(slot[..]) == set o | 0 <= o < count :: Occupied(o, keys[o])
      ensures forall o, p :: 0 <= o < p < count ==> keys[o] != keys[p]
    {
      var s := slot[..];
      forall o | 0 <= o < count
        ensures Occupied(o, keys[o]) in OccupiedSlots(s)
      {
        assert s[pos[o]] == Occupied(o, keys[o]);
      }
    }

    /** The grow step of insertStr: the slots copied into a table of twice the
        size; when a key finds no free slot within the probe cap the copy is
        abandoned and the table is left as it was. */
    method Grow() returns (ok: bool)
      requires Valid()
      modifies this
      ensures Valid()
      ensures keys == old(keys) && count == old(count)
      ensures ok == Rehash(sfh, old(slot[..]), Frees(2 * old(size)), 0).Some?
      ensures ok ==> size == 2 * old(size) && loadLimit == size * 3 / 4
      ensures ok ==> slot[..] == Rehash(sfh, old(slot[..]), Frees(2 * old(size)), 0).value
      ensures !ok ==> unchanged(this)
    {
      var newslot, copied, npos, nsteps := CopySlots(sfh, slot, keys, pos, steps);
      if !copied {
        return false;
      }
      Install(newslot, npos, nsteps);
      ok := true;
    }

    /** The swap at the end of the grow step: `b`, holding every key in a layout
        of its own, becomes the slot array. */
    method Install(b: array<Slot>, ghost at: seq<nat>, ghost step: seq<nat>)
      requires size > 0 && count == |keys| && Indexes(keys, index) && b.Length == 2 * size
      requires Layout(sfh, b[..], keys, at, step, AllPlaced(|keys|))
      modifies this
      ensures Valid() && slot == b && size == 2 * old(size) && loadLimit == size * 3 / 4
      ensures keys == old(keys) && count == old(count) && slot[..] == old(b[..])
    {
      assert Stored(sfh, b[..], keys, at, step, index);
      slot, size, loadLimit := b, 2 * size, (2 * size * 3) / 4;
      pos, steps, contents := at, step, b[..];
    }

    /** The placement step of insertStr: the new key takes the free slot `idx`,
        reached at probe `iters`, with the next order. */
    method Put(key: Bytes, idx: nat, iters: nat)
      requires Valid() && key !in keys
      requires idx < size && slot[idx] == Free && iters <= LAST_PROBE && idx == ProbeSlot(sfh, key, iters, size)
      requires forall j :: 0 <= j < iters ==> slot[ProbeSlot(sfh, key, j, size)].Occupied?
      modifies this, slot
      ensures Valid() && slot == old(slot) && size == old(size) && loadLimit == old(loadLimit)
      ensures keys == old(keys) + [key] && count == old(count) + 1 && count <= size
      ensures slot[..] == old(slot[..])[idx := Occupied(old(count), key)]
    {
      ghost var s2 := contents[idx := Occupied(|keys|, key)];
      PutKeeps(sfh, contents, keys, pos, steps, index, key, idx, iters);
      ghost var keys2, pos2, steps2, index2 := keys + [key], pos + [idx], steps + [iters], index[key := |keys|];
      assert Stored(sfh, s2, keys2, pos2, steps2, index2);
      slot[idx] := Occupied(count, key);
      assert slot[..] == s2;
      keys, pos, steps, index, contents := keys2, pos2, steps2, index2, s2;
      count := count + 1;
    }

    /** insertStr: a key not yet stored goes, with the next order, into the first
        free slot of its probe sequence; reaching the load limit then grows the
        table. `warned` reports the "excessive looping" warning of either probe loop. */
    method InsertStr(key: Bytes) returns (warned: bool)
      requires Valid() && NoNul(key)
      modifies this, slot
      ensures Valid()
      ensures key in old(keys) ==> !warned && unchanged(this) && unchanged(slot)
      ensures key !in old(keys) && FirstFree(sfh, old(slot[..]), key, 0).None? ==>
                warned && unchanged(this) && unchanged(slot)
      ensures key !in old(keys) && FirstFree(sfh, old(slot[..]), key, 0).Some? ==>
                keys == old(keys) + [key] && count == old(count) + 1
      ensures key !in old(keys) && FirstFree(sfh, old(slot[..]), key, 0).Some? && old(count) + 1 < old(loadLimit) ==>
                !warned && size == old(size) && slot[..] == PlaceNew(sfh, old(slot[..]), key, old(count))
      ensures key !in old(keys) && FirstFree(sfh, old(slot[..]), key, 0).Some? && old(count) + 1 >= old(loadLimit) ==>
                var grown := Rehash(sfh, PlaceNew(sfh, old(slot[..]), key, old(count)), Frees(2 * old(size)), 0);
                && warned == grown.None?
                && (grown.Some? ==> size == 2 * old(size) && loadLimit == size * 3 / 4 && slot[..] == grown.value)
                && (grown.None? ==> size == old(size) && loadLimit == old(loadLimit)
                                    && slot[..] == PlaceNew(sfh, old(slot[..]), key, old(count)))
      ensures key !in old(keys) && !warned ==> count < size
    {
      var p := Search(sfh, slot, key);
      if p.Found? {
        assert slot[..][p.idx] == slot[p.idx];
        return false;
      }
      if p.GaveUp? {
        NotStored(key, LAST_PROBE + 1);
        FirstFreeSkip(sfh, slot[..], key, 0, LAST_PROBE + 1);
        // warning ("dht.insertStr: excessive looping in hash.")
        return true;
      }
      NotStored(key, p.iters);
      FirstFreeSkip(sfh, slot[..], key, 0, p.iters);
      Put(key, p.idx, p.iters);
      if count >= loadLimit {
        var ok := Grow();
        warned := !ok;
      } else {
        warned := false;
      }
    }
  }
}
