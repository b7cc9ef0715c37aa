/**
 * The translation structures of an Intel VT-d remapping unit as they sit in
 * memory: 4 KiB pages addressed by frame number, each holding 512 64-bit
 * words; a root table of 256 16-byte entries indexed by bus, context tables
 * of 256 16-byte entries indexed by device/function, and a 3-level, 512-way
 * second-level page table (chapter 9 of the Intel VT-d Architecture
 * Specification).
 *
 * A ghost ownership map records what each allocated frame is used for and,
 * for a table below the root, the one entry that points to it.  The
 * invariant WF says every present pointer entry points to a frame owned as
 * its child, which is what makes the tables a tree and lets a write to one
 * entry be shown to leave every other translation alone.
 */
module VtdTables {
  import opened Wrappers

  /** One 64-bit word of memory: the page frame and the word index inside it. */
  datatype Slot = Slot(frame: bv64, index: bv64)

  /** Memory as the tables see it; a word never written reads as zero (pages are zeroed when allocated). */
  type Mem = map<Slot, bv64>

  /**
   * What an allocated frame holds.  A Table of depth 1 is a context table,
   * of depth 2, 3 and 4 a page-table page of level 3, 2 and 1; parent is the
   * entry that points to it.
   */
  datatype Role = RootTable | Table(depth: nat, parent: Slot) | IrTable

  /** A page frame, as a key of the ownership map. */
  datatype Page = Page(frame: bv64)

  type Owner = map<Page, Role>

  /** The number of entries the walk reads: root, context, and three page-table levels. */
  const WALK_LENGTH: nat := 5

  function Read(mem: Mem, s: Slot): bv64
  {
    if s in mem then mem[s] else 0
  }

  /** The frame an entry points to: bits 12-63 (context_table_p, slptptr, or the address bits of a PTE). */
  function Child(v: bv64): bv64
  {
    v >> 12
  }

  /** An entry read at a depth is present: bit 0 for root and context entries, a read or write bit for a PTE. */
  predicate Present(depth: nat, v: bv64)
  {
    if depth <= 1 then v & 1 != 0 else v & 3 != 0
  }

  lemma PresentNonZero(depth: nat, v: bv64)
    ensures Present(depth, v) ==> v != 0
  {
  }

  /** The frame the walk along the word indices idx reads at depth k. */
  function FrameAt(mem: Mem, root: bv64, idx: seq<bv64>, k: nat): bv64
    requires k < |idx|
    decreases k
  {
    if k == 0 then root else Child(Read(mem, Slot(FrameAt(mem, root, idx, k - 1), idx[k - 1])))
  }

  function SlotAt(mem: Mem, root: bv64, idx: seq<bv64>, k: nat): Slot
    requires k < |idx|
  {
    Slot(FrameAt(mem, root, idx, k), idx[k])
  }

  /** The entries read at depths below k are all present, so the walk reads at depth k. */
  predicate Reaches(mem: Mem, root: bv64, idx: seq<bv64>, k: nat)
    requires k <= |idx|
    decreases k
  {
    k == 0 || (Reaches(mem, root, idx, k - 1) && Present(k - 1, Read(mem, SlotAt(mem, root, idx, k - 1))))
  }

  /** The leaf entry the walk ends on, or None when an entry on the way (or the leaf) is not present. */
  function Walk(mem: Mem, root: bv64, idx: seq<bv64>): Option<bv64>
    requires |idx| == WALK_LENGTH
  {
    if Reaches(mem, root, idx, WALK_LENGTH) then Some(Read(mem, SlotAt(mem, root, idx, WALK_LENGTH - 1))) else None
  }

  /** The low word of a root or context entry has an even index. */
  predicate ValidIdx(idx: seq<bv64>)
  {
    |idx| == WALK_LENGTH && idx[0] & 1 == 0 && idx[1] & 1 == 0
  }

  function DepthOf(r: Role): nat
  {
    match r
    case RootTable => 0
    case Table(d, _) => d
    case IrTable => 0
  }

  /** A word that holds a pointer when present: the low word of a root or context entry, or a level 3 or 2 PTE. */
  predicate IsPtrSlot(owner: Owner, s: Slot)
  {
    Page(s.frame) in owner &&
    match owner[Page(s.frame)]
    case RootTable => s.index & 1 == 0
    case Table(d, _) => d <= 3 && (d == 1 ==> s.index & 1 == 0)
    case IrTable => false
  }

  /** A present pointer word points to a frame owned as the child of exactly that word. */
  ghost predicate PointsToChild(mem: Mem, owner: Owner, s: Slot)
  {
    s in mem && IsPtrSlot(owner, s) && Present(DepthOf(owner[Page(s.frame)]), mem[s]) ==>
      Page(Child(mem[s])) in owner && owner[Page(Child(mem[s]))] == Table(DepthOf(owner[Page(s.frame)]) + 1, s)
  }

  /** Every stored word lies in an allocated frame, and every present pointer points to its own child. */
  ghost predicate TreeOK(mem: Mem, owner: Owner)
  {
    && (forall s :: s in mem ==> Page(s.frame) in owner)
    && (forall s {:trigger PointsToChild(mem, owner, s)} :: PointsToChild(mem, owner, s))
  }

  /** The tables form a tree rooted at root. */
  ghost predicate WF(mem: Mem, owner: Owner, root: bv64)
  {
    Page(root) in owner && owner[Page(root)] == RootTable && TreeOK(mem, owner)
  }

  /** A walk that reaches depth k reaches every smaller depth. */
  lemma {:induction false} ReachesPrefix(mem: Mem, root: bv64, idx: seq<bv64>, j: nat, k: nat)
    requires j <= k <= |idx| && Reaches(mem, root, idx, k)
    ensures Reaches(mem, root, idx, j)
    decreases k
  {
    if j < k {
      ReachesPrefix(mem, root, idx, j, k - 1);
    }
  }

  /** In well-formed tables the frame a reaching walk reads at depth k is owned as the child of the entry read before it. */
  lemma {:induction false} RoleOnWalk(mem: Mem, owner: Owner, root: bv64, idx: seq<bv64>, k: nat)
    requires WF(mem, owner, root) && ValidIdx(idx) && k < WALK_LENGTH && Reaches(mem, root, idx, k)
    ensures Page(FrameAt(mem, root, idx, k)) in owner
    ensures owner[Page(FrameAt(mem, root, idx, k))] ==
            if k == 0 then RootTable else Table(k, SlotAt(mem, root, idx, k - 1))
    decreases k
  {
    if k > 0 {
      RoleOnWalk(mem, owner, root, idx, k - 1);
      var s := SlotAt(mem, root, idx, k - 1);
      PresentNonZero(k - 1, Read(mem, s));
      assert s in mem;
      assert IsPtrSlot(owner, s);
      assert PointsToChild(mem, owner, s);
    }
  }

  /**
   * Trees do not share: when two reaching walks read the same entry they read
   * it at the same depth, along the same indices.
   */
  lemma {:induction false} WalksMeet(mem: Mem, owner: Owner, root: bv64, a: seq<bv64>, ka: nat, b: seq<bv64>, kb: nat)
    requires WF(mem, owner, root) && ValidIdx(a) && ValidIdx(b)
    requires ka < WALK_LENGTH && kb < WALK_LENGTH
    requires Reaches(mem, root, a, ka) && Reaches(mem, root, b, kb)
    requires SlotAt(mem, root, a, ka) == SlotAt(mem, root, b, kb)
    ensures ka == kb && forall j :: 0 <= j <= ka ==> a[j] == b[j]
    decreases ka
  {
    FramesMeet(mem, owner, root, a, ka, b, kb);
    if ka > 0 {
      ReachesPrefix(mem, root, a, ka - 1, ka);
      ReachesPrefix(mem, root, b, kb - 1, kb);
      WalksMeet(mem, owner, root, a, ka - 1, b, kb - 1);
      assert forall j :: 0 <= j < ka ==> a[j] == b[j];
    }
  }

  /** Two walks that read the same frame read it at the same depth, and below the root through the same entry. */
  lemma FramesMeet(mem: Mem, owner: Owner, root: bv64, a: seq<bv64>, ka: nat, b: seq<bv64>, kb: nat)
    requires WF(mem, owner, root) && ValidIdx(a) && ValidIdx(b)
    requires ka < WALK_LENGTH && kb < WALK_LENGTH
    requires Reaches(mem, root, a, ka) && Reaches(mem, root, b, kb)
    requires FrameAt(mem, root, a, ka) == FrameAt(mem, root, b, kb)
    ensures ka == kb && (ka > 0 ==> SlotAt(mem, root, a, ka - 1) == SlotAt(mem, root, b, kb - 1))
  {
    RoleOnWalk(mem, owner, root, a, ka);
    RoleOnWalk(mem, owner, root, b, kb);
  }

  /** A write the walk does not read on its way to depth k leaves the walk to depth k as it was. */
  lemma {:induction false} WriteOffWalk(mem: Mem, root: bv64, idx: seq<bv64>, s: Slot, v: bv64, k: nat)
    requires k <= |idx|
    requires forall j :: 0 <= j < k && Reaches(mem, root, idx, j) ==> SlotAt(mem, root, idx, j) != s
    ensures Reaches(mem[s := v], root, idx, k) == Reaches(mem, root, idx, k)
    ensures k < |idx| && Reaches(mem, root, idx, k) ==> FrameAt(mem[s := v], root, idx, k) == FrameAt(mem, root, idx, k)
    decreases k
  {
    if k > 0 {
      WriteOffWalk(mem, root, idx, s, v, k - 1);
      if Reaches(mem, root, idx, k - 1) {
        assert SlotAt(mem[s := v], root, idx, k - 1) == SlotAt(mem, root, idx, k - 1) != s;
      }
    }
  }

  /** A write to the entry a walk reads at depth k leaves the walk above depth k as it was. */
  lemma WriteKeepsPrefix(mem: Mem, owner: Owner, root: bv64, a: seq<bv64>, k: nat, v: bv64, j: nat)
    requires WF(mem, owner, root) && ValidIdx(a) && k < WALK_LENGTH && Reaches(mem, root, a, k) && j <= k
    ensures Reaches(mem[SlotAt(mem, root, a, k) := v], root, a, j)
    ensures FrameAt(mem[SlotAt(mem, root, a, k) := v], root, a, j) == FrameAt(mem, root, a, j)
  {
    var s := SlotAt(mem, root, a, k);
    forall i | 0 <= i < j && Reaches(mem, root, a, i)
      ensures SlotAt(mem, root, a, i) != s
    {
      if SlotAt(mem, root, a, i) == s {
        WalksMeet(mem, owner, root, a, i, a, k);
      }
    }
    ReachesPrefix(mem, root, a, j, k);
    WriteOffWalk(mem, root, a, s, v, j);
  }

  /** No reaching walk reads a word of a frame that has no word stored. */
  lemma EmptyFrameReadsZero(mem: Mem, owner: Owner, root: bv64, f: bv64, i: bv64)
    requires WF(mem, owner, root) && Page(f) !in owner
    ensures Read(mem, Slot(f, i)) == 0
  {
  }

  /** Storing at s and claiming a new frame f keeps every other slot's child pointer valid. */
  lemma OtherKeepsChild(mem: Mem, owner: Owner, s: Slot, v: bv64, f: bv64, r: Role, t: Slot)
    requires TreeOK(mem, owner) && Page(f) !in owner && Page(s.frame) in owner && t != s
    ensures PointsToChild(mem[s := v], owner[Page(f) := r], t)
  {
    if t in mem {
      assert PointsToChild(mem, owner, t);
      assert owner[Page(f) := r][Page(t.frame)] == owner[Page(t.frame)];
    }
  }

  /** Making a missing entry at depth k present, pointing to a fresh empty frame, keeps the tables a tree. */
  lemma CreateKeepsWF(mem: Mem, owner: Owner, root: bv64, a: seq<bv64>, k: nat, f: bv64, v: bv64)
    requires WF(mem, owner, root) && ValidIdx(a) && k < WALK_LENGTH - 1 && Reaches(mem, root, a, k)
    requires Page(f) !in owner && Present(k, v) && Child(v) == f
    ensures WF(mem[SlotAt(mem, root, a, k) := v], owner[Page(f) := Table(k + 1, SlotAt(mem, root, a, k))], root)
  {
    var s := SlotAt(mem, root, a, k);
    var mem': Mem := mem[s := v];
    var owner': Owner := owner[Page(f) := Table(k + 1, s)];
    RoleOnWalk(mem, owner, root, a, k);
    assert Page(s.frame) in owner;
    assert IsPtrSlot(owner, s);
    forall t
      ensures PointsToChild(mem', owner', t)
    {
      if t == s {
        assert owner'[Page(s.frame)] == owner[Page(s.frame)];
        assert DepthOf(owner[Page(s.frame)]) == k && mem'[s] == v;
      } else {
        OtherKeepsChild(mem, owner, s, v, f, Table(k + 1, s), t);
      }
    }
  }

  /** A write no reaching step of the walk reads leaves the walk's result as it was. */
  lemma UnreadKeepsWalk(mem: Mem, root: bv64, b: seq<bv64>, s: Slot, v: bv64)
    requires |b| == WALK_LENGTH
    requires forall j :: 0 <= j < WALK_LENGTH && Reaches(mem, root, b, j) ==> SlotAt(mem, root, b, j) != s
    ensures Walk(mem[s := v], root, b) == Walk(mem, root, b)
  {
    WriteOffWalk(mem, root, b, s, v, WALK_LENGTH);
    WriteOffWalk(mem, root, b, s, v, WALK_LENGTH - 1);
  }

  /** A walk that finds a missing entry at any depth translates to nothing. */
  lemma {:induction false} MissingStopsWalk(mem: Mem, root: bv64, b: seq<bv64>, j: nat)
    requires |b| == WALK_LENGTH && j < WALK_LENGTH && !Present(j, Read(mem, SlotAt(mem, root, b, j)))
    ensures Walk(mem, root, b) == None
  {
    if Reaches(mem, root, b, WALK_LENGTH) {
      ReachesPrefix(mem, root, b, j + 1, WALK_LENGTH);
    }
  }

  /** A walk that read the missing entry at depth k now reads the fresh frame's zero word below it. */
  lemma CreateStopsWalk(mem: Mem, owner: Owner, root: bv64, a: seq<bv64>, k: nat, f: bv64, v: bv64, b: seq<bv64>)
    requires WF(mem, owner, root) && ValidIdx(a) && k < WALK_LENGTH - 1 && Reaches(mem, root, a, k)
    requires !Present(k, Read(mem, SlotAt(mem, root, a, k)))
    requires Page(f) !in owner && Present(k, v) && Child(v) == f
    requires ValidIdx(b) && Reaches(mem, root, b, k) && SlotAt(mem, root, b, k) == SlotAt(mem, root, a, k)
    ensures Walk(mem[SlotAt(mem, root, a, k) := v], root, b) == None == Walk(mem, root, b)
  {
    var s := SlotAt(mem, root, a, k);
    MissingStopsWalk(mem, root, b, k);
    RoleOnWalk(mem, owner, root, a, k);
    forall i | 0 <= i < k && Reaches(mem, root, b, i)
      ensures SlotAt(mem, root, b, i) != s
    {
      if SlotAt(mem, root, b, i) == s {
        WalksMeet(mem, owner, root, a, k, b, i);
      }
    }
    WriteOffWalk(mem, root, b, s, v, k);
    CreateStopsBelow(mem, owner, root, b, k, s, f, v);
  }

  lemma CreateStopsBelow(mem: Mem, owner: Owner, root: bv64, b: seq<bv64>, k: nat, s: Slot, f: bv64, v: bv64)
    requires WF(mem, owner, root) && |b| == WALK_LENGTH && k < WALK_LENGTH - 1
    requires Page(s.frame) in owner && Page(f) !in owner && Child(v) == f
    requires FrameAt(mem[s := v], root, b, k) == FrameAt(mem, root, b, k) && SlotAt(mem, root, b, k) == s
    ensures Walk(mem[s := v], root, b) == None
  {
    var mem' := mem[s := v];
    assert SlotAt(mem', root, b, k) == s;
    assert FrameAt(mem', root, b, k + 1) == f;
    assert Slot(f, b[k + 1]) !in mem';
    MissingStopsWalk(mem', root, b, k + 1);
  }

  lemma CreateKeepsWalk(mem: Mem, owner: Owner, root: bv64, a: seq<bv64>, k: nat, f: bv64, v: bv64, b: seq<bv64>)
    requires WF(mem, owner, root) && ValidIdx(a) && k < WALK_LENGTH - 1 && Reaches(mem, root, a, k)
    requires !Present(k, Read(mem, SlotAt(mem, root, a, k)))
    requires Page(f) !in owner && Present(k, v) && Child(v) == f
    requires ValidIdx(b)
    ensures Walk(mem[SlotAt(mem, root, a, k) := v], root, b) == Walk(mem, root, b)
  {
    var s := SlotAt(mem, root, a, k);
    if j :| 0 <= j < WALK_LENGTH && Reaches(mem, root, b, j) && SlotAt(mem, root, b, j) == s {
      WalksMeet(mem, owner, root, a, k, b, j);
      CreateStopsWalk(mem, owner, root, a, k, f, v, b);
    } else {
      UnreadKeepsWalk(mem, root, b, s, v);
    }
  }

  /** Writing the leaf a walk reaches keeps the tables a tree: a leaf is not a pointer. */
  lemma LeafKeepsWF(mem: Mem, owner: Owner, root: bv64, a: seq<bv64>, v: bv64)
    requires WF(mem, owner, root) && ValidIdx(a) && Reaches(mem, root, a, WALK_LENGTH - 1)
    ensures WF(mem[SlotAt(mem, root, a, WALK_LENGTH - 1) := v], owner, root)
  {
    var s := SlotAt(mem, root, a, WALK_LENGTH - 1);
    var mem': Mem := mem[s := v];
    RoleOnWalk(mem, owner, root, a, WALK_LENGTH - 1);
    assert !IsPtrSlot(owner, s);
    forall t
      ensures PointsToChild(mem', owner, t)
    {
      if t != s && t in mem {
        assert PointsToChild(mem, owner, t);
      }
    }
  }

  /** Writing the leaf of walk a sets a's translation to the new entry and changes no other translation. */
  lemma LeafWriteWalk(mem: Mem, owner: Owner, root: bv64, a: seq<bv64>, v: bv64, b: seq<bv64>)
    requires WF(mem, owner, root) && ValidIdx(a) && ValidIdx(b) && Reaches(mem, root, a, WALK_LENGTH - 1)
    requires Present(WALK_LENGTH - 1, v)
    ensures Walk(mem[SlotAt(mem, root, a, WALK_LENGTH - 1) := v], root, b) ==
            if b == a then Some(v) else Walk(mem, root, b)
  {
    var s := SlotAt(mem, root, a, WALK_LENGTH - 1);
    if b == a {
      WriteKeepsPrefix(mem, owner, root, a, WALK_LENGTH - 1, v, WALK_LENGTH - 1);
      assert SlotAt(mem[s := v], root, a, WALK_LENGTH - 1) == s;
    } else {
      forall j | 0 <= j < WALK_LENGTH && Reaches(mem, root, b, j)
        ensures SlotAt(mem, root, b, j) != s
      {
        if SlotAt(mem, root, b, j) == s {
          WalksMeet(mem, owner, root, a, WALK_LENGTH - 1, b, j);
        }
      }
      UnreadKeepsWalk(mem, root, b, s, v);
    }
  }

  /** A word no walk reads: one of the interrupt remapping table, or the high word of a root or context entry. */
  predicate Unwalked(owner: Owner, s: Slot)
  {
    Page(s.frame) in owner &&
    match owner[Page(s.frame)]
    case IrTable => true
    case RootTable => s.index & 1 == 1
    case Table(d, _) => d == 1 && s.index & 1 == 1
  }

  /** Writing a word no walk reads keeps the tables a tree and changes no translation. */
  lemma UnwalkedWrite(mem: Mem, owner: Owner, root: bv64, s: Slot, v: bv64)
    requires WF(mem, owner, root) && Unwalked(owner, s)
    ensures WF(mem[s := v], owner, root)
    ensures forall b {:trigger Walk(mem[s := v], root, b)} :: ValidIdx(b) ==> Walk(mem[s := v], root, b) == Walk(mem, root, b)
  {
    var mem': Mem := mem[s := v];
    assert !IsPtrSlot(owner, s);
    forall t
      ensures PointsToChild(mem', owner, t)
    {
      if t != s && t in mem {
        assert PointsToChild(mem, owner, t);
      }
    }
    forall b | ValidIdx(b)
      ensures Walk(mem', root, b) == Walk(mem, root, b)
    {
      forall j | 0 <= j < WALK_LENGTH && Reaches(mem, root, b, j)
        ensures SlotAt(mem, root, b, j) != s
      {
        RoleOnWalk(mem, owner, root, b, j);
      }
      UnreadKeepsWalk(mem, root, b, s, v);
    }
  }

  /** The walk down to depth k depends only on the first k indices. */
  lemma {:induction false} PrefixIndependent(mem: Mem, root: bv64, a: seq<bv64>, b: seq<bv64>, k: nat)
    requires |a| == WALK_LENGTH && |b| == WALK_LENGTH && k < WALK_LENGTH
    requires forall j :: 0 <= j < k ==> a[j] == b[j]
    ensures Reaches(mem, root, a, k) == Reaches(mem, root, b, k)
    ensures FrameAt(mem, root, a, k) == FrameAt(mem, root, b, k)
    decreases k
  {
    if k > 0 {
      PrefixIndependent(mem, root, a, b, k - 1);
      assert a[k - 1] == b[k - 1];
    }
  }

  /** A write to a page-table entry (depth 2 or below) leaves every walk's way down to its page table as it was. */
  lemma DeepWriteKeepsTop(mem: Mem, owner: Owner, root: bv64, a: seq<bv64>, k: nat, v: bv64, b: seq<bv64>)
    requires WF(mem, owner, root) && ValidIdx(a) && ValidIdx(b) && 2 <= k < WALK_LENGTH
    requires Reaches(mem, root, a, k) && Reaches(mem, root, b, 2)
    ensures Reaches(mem[SlotAt(mem, root, a, k) := v], root, b, 2)
    ensures FrameAt(mem[SlotAt(mem, root, a, k) := v], root, b, 2) == FrameAt(mem, root, b, 2)
  {
    var s := SlotAt(mem, root, a, k);
    forall j | 0 <= j < 2 && Reaches(mem, root, b, j)
      ensures SlotAt(mem, root, b, j) != s
    {
      if SlotAt(mem, root, b, j) == s {
        WalksMeet(mem, owner, root, a, k, b, j);
      }
    }
    WriteOffWalk(mem, root, b, s, v, 2);
  }

  /**
   * One step of a table walk that creates what is missing: the missing entry
   * at depth k is set to point to the fresh frame f.  The tables stay a tree,
   * no translation changes, the walk now reaches f at depth k + 1, and the
   * frames it read above depth k + 1 are as before.
   */
  lemma CreateStep(mem: Mem, owner: Owner, root: bv64, a: seq<bv64>, k: nat, f: bv64, v: bv64)
    requires WF(mem, owner, root) && ValidIdx(a) && k < WALK_LENGTH - 1 && Reaches(mem, root, a, k)
    requires !Present(k, Read(mem, SlotAt(mem, root, a, k)))
    requires Page(f) !in owner && Present(k, v) && Child(v) == f
    ensures WF(mem[SlotAt(mem, root, a, k) := v], owner[Page(f) := Table(k + 1, SlotAt(mem, root, a, k))], root)
    ensures Reaches(mem[SlotAt(mem, root, a, k) := v], root, a, k + 1)
    ensures FrameAt(mem[SlotAt(mem, root, a, k) := v], root, a, k + 1) == f
    ensures forall j :: 0 <= j <= k ==> FrameAt(mem[SlotAt(mem, root, a, k) := v], root, a, j) == FrameAt(mem, root, a, j)
    ensures forall b {:trigger Walk(mem[SlotAt(mem, root, a, k) := v], root, b)} :: ValidIdx(b) ==> Walk(mem[SlotAt(mem, root, a, k) := v], root, b) == Walk(mem, root, b)
  {
    var s := SlotAt(mem, root, a, k);
    CreateKeepsWF(mem, owner, root, a, k, f, v);
    forall j | 0 <= j <= k
      ensures FrameAt(mem[s := v], root, a, j) == FrameAt(mem, root, a, j)
    {
      WriteKeepsPrefix(mem, owner, root, a, k, v, j);
    }
    WriteKeepsPrefix(mem, owner, root, a, k, v, k);
    assert SlotAt(mem[s := v], root, a, k) == s;
    forall b | ValidIdx(b)
      ensures Walk(mem[s := v], root, b) == Walk(mem, root, b)
    {
      CreateKeepsWalk(mem, owner, root, a, k, f, v, b);
    }
  }

  /** Writing the leaf of walk a gives a the new translation, keeps the tables a tree and changes no other translation. */
  lemma LeafStep(mem: Mem, owner: Owner, root: bv64, a: seq<bv64>, v: bv64)
    requires WF(mem, owner, root) && ValidIdx(a) && Reaches(mem, root, a, WALK_LENGTH - 1)
    requires Present(WALK_LENGTH - 1, v)
    ensures WF(mem[SlotAt(mem, root, a, WALK_LENGTH - 1) := v], owner, root)
    ensures Walk(mem[SlotAt(mem, root, a, WALK_LENGTH - 1) := v], root, a) == Some(v)
    ensures forall b {:trigger Walk(mem[SlotAt(mem, root, a, WALK_LENGTH - 1) := v], root, b)} :: ValidIdx(b) && b != a ==> Walk(mem[SlotAt(mem, root, a, WALK_LENGTH - 1) := v], root, b) == Walk(mem, root, b)
  {
    LeafKeepsWF(mem, owner, root, a, v);
    LeafWriteWalk(mem, owner, root, a, v, a);
    forall b | ValidIdx(b) && b != a
      ensures Walk(mem[SlotAt(mem, root, a, WALK_LENGTH - 1) := v], root, b) == Walk(mem, root, b)
    {
      LeafWriteWalk(mem, owner, root, a, v, b);
    }
  }
}
