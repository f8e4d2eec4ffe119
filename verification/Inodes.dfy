/** The inode cache, directories and path names (fs.c). One process at a time walks a path; directory contents are
    sequences of entries and names are at most 14 characters. */
module Inodes {
  import opened Blocks

  const NINODE := 50
  const DIRSIZ := 14
  const ROOTDEV := 1
  const ROOTINO := 1
  const T_DIR := 1
  const XUSR := 8
  const XOTH := 1

  datatype Entry = Entry(inum: nat, name: string)

  /** An inode on disk; type 0 is a free one. */
  datatype Node = Node(typ: nat, nlink: nat, mode: nat, userid: string, entries: seq<Entry>)

  /** A cache slot: an in-memory inode and its lock. */
  datatype Slot = Slot(dev: nat, inum: nat, ref: nat, valid: bool, locked: bool)

  // ---- references ----

  ghost function Share(s: Slot, dev: nat, inum: nat): nat {
    if s.dev == dev && s.inum == inum then s.ref else 0
  }

  /** All references to an inode, over the whole cache. */
  ghost function Refs(slots: seq<Slot>, dev: nat, inum: nat): nat {
    if slots == [] then 0 else Refs(slots[..|slots| - 1], dev, inum) + Share(slots[|slots| - 1], dev, inum)
  }

  lemma {:induction false} RefsUpdate(slots: seq<Slot>, i: nat, s: Slot, dev: nat, inum: nat)
    requires i < |slots|
    ensures Refs(slots[i := s], dev, inum) == Refs(slots, dev, inum) - Share(slots[i], dev, inum) + Share(s, dev, inum)
  {
    var n := |slots| - 1;
    if i == n {
      assert slots[i := s][..n] == slots[..n];
    } else {
      RefsUpdate(slots[..n], i, s, dev, inum);
      assert slots[i := s][..n] == slots[..n][i := s];
    }
  }

  /** Referenced slots are for different inodes. */
  ghost predicate OneSlotEach(slots: seq<Slot>) {
    forall i, j :: 0 <= i < j < |slots| && slots[i].ref > 0 && slots[j].ref > 0 ==>
      slots[i].dev != slots[j].dev || slots[i].inum != slots[j].inum
  }

  ghost predicate Inv(slots: seq<Slot>) {
    |slots| == NINODE && OneSlotEach(slots) && forall i :: 0 <= i < |slots| && slots[i].locked ==> slots[i].ref > 0
  }

  /** What has been read from disk is not free there. */
  ghost predicate Allocated(slots: seq<Slot>, disk: map<nat, Node>) {
    forall i :: 0 <= i < |slots| && slots[i].ref > 0 && slots[i].valid ==> NodeOf(disk, slots[i].inum).typ != 0
  }

  /** There is one disk. */
  ghost predicate OneDevice(slots: seq<Slot>) {
    forall i :: 0 <= i < |slots| && slots[i].ref > 0 ==> slots[i].dev == ROOTDEV
  }

  ghost predicate Unlocked(slots: seq<Slot>) {
    forall i :: 0 <= i < |slots| ==> !slots[i].locked
  }

  /** One reference more to (dev, inum), or one less, and no other changed. */
  ghost predicate Gained(slots: seq<Slot>, slots': seq<Slot>, dev: nat, inum: nat) {
    forall d, n :: Refs(slots', d, n) == Refs(slots, d, n) + if d == dev && n == inum then 1 else 0
  }

  ghost predicate Balanced(slots: seq<Slot>, slots': seq<Slot>) {
    forall d, n :: Refs(slots', d, n) == Refs(slots, d, n)
  }

  lemma SetSlot(slots: seq<Slot>, i: nat, s: Slot)
    requires i < |slots|
    ensures forall d, n :: Refs(slots[i := s], d, n) == Refs(slots, d, n) - Share(slots[i], d, n) + Share(s, d, n)
  {
    forall d, n ensures Refs(slots[i := s], d, n) == Refs(slots, d, n) - Share(slots[i], d, n) + Share(s, d, n) {
      RefsUpdate(slots, i, s, d, n);
    }
  }

  // ---- room in the cache ----

  datatype Key = Key(dev: nat, inum: nat)

  /** The inodes that somebody refers to. */
  ghost function Keys(slots: seq<Slot>): set<Key> {
    if slots == [] then {}
    else Keys(slots[..|slots| - 1]) + (if slots[|slots| - 1].ref > 0 then {Key(slots[|slots| - 1].dev, slots[|slots| - 1].inum)} else {})
  }

  lemma {:induction false} KeysAreRefs(slots: seq<Slot>, dev: nat, inum: nat)
    ensures Key(dev, inum) in Keys(slots) <==> Refs(slots, dev, inum) > 0
  {
    if slots != [] {
      KeysAreRefs(slots[..|slots| - 1], dev, inum);
    }
  }

  lemma {:induction false} FullCache(slots: seq<Slot>)
    requires OneSlotEach(slots) && forall i :: 0 <= i < |slots| ==> slots[i].ref > 0
    ensures |Keys(slots)| == |slots|
  {
    if slots != [] {
      var n := |slots| - 1;
      var front, k := slots[..n], Key(slots[n].dev, slots[n].inum);
      FullCache(front);
      if k in Keys(front) {
        KeysAreRefs(front, k.dev, k.inum);
        SomeSlot(front, k.dev, k.inum);
      }
    }
  }

  lemma {:induction false} SomeSlot(slots: seq<Slot>, dev: nat, inum: nat)
    requires Refs(slots, dev, inum) > 0
    ensures exists i :: 0 <= i < |slots| && slots[i].ref > 0 && slots[i].dev == dev && slots[i].inum == inum
  {
    var n := |slots| - 1;
    if Share(slots[n], dev, inum) == 0 {
      SomeSlot(slots[..n], dev, inum);
      var i :| 0 <= i < n && slots[..n][i].ref > 0 && slots[..n][i].dev == dev && slots[..n][i].inum == inum;
      assert slots[i].ref > 0;
    }
  }

  lemma {:induction false} KeysBound(slots: seq<Slot>, i: nat)
    requires i < |slots|
    ensures |Keys(slots)| <= |slots| && (slots[i].ref == 0 ==> |Keys(slots)| < |slots|)
    ensures slots[i].ref > 0 ==> Refs(slots, slots[i].dev, slots[i].inum) >= slots[i].ref
  {
    var n := |slots| - 1;
    if n > 0 {
      KeysBound(slots[..n], if i < n then i else 0);
    }
  }

  lemma {:induction false} OnlySlot(slots: seq<Slot>, i: nat)
    requires OneSlotEach(slots) && i < |slots| && slots[i].ref > 0
    ensures Refs(slots, slots[i].dev, slots[i].inum) == slots[i].ref
  {
    var n := |slots| - 1;
    if i < n {
      OnlySlot(slots[..n], i);
    } else if Refs(slots[..n], slots[n].dev, slots[n].inum) > 0 {
      SomeSlot(slots[..n], slots[n].dev, slots[n].inum);
    }
  }

  lemma HeldBySlot(slots: seq<Slot>, i: nat)
    requires i < |slots| && slots[i].ref > 0
    ensures Key(slots[i].dev, slots[i].inum) in Keys(slots)
  {
    KeysBound(slots, i);
    KeysAreRefs(slots, slots[i].dev, slots[i].inum);
  }

  /** iget panics exactly when NINODE inodes are referenced and this is none of them. */
  ghost predicate NoSlotFor(held: set<Key>, inum: nat) {
    Key(ROOTDEV, inum) !in held && |held| >= NINODE
  }

  lemma NoSlotIff(slots: seq<Slot>, inum: nat)
    requires Inv(slots)
    ensures NoSlotFor(Keys(slots), inum) <==> forall i :: 0 <= i < NINODE ==> slots[i].ref > 0 && !Caches(slots[i], ROOTDEV, inum)
  {
    KeysAreRefs(slots, ROOTDEV, inum);
    if Key(ROOTDEV, inum) in Keys(slots) {
      SomeSlot(slots, ROOTDEV, inum);
    } else {
      forall i | 0 <= i < NINODE ensures !Caches(slots[i], ROOTDEV, inum) && (slots[i].ref == 0 ==> |Keys(slots)| < NINODE) {
        KeysBound(slots, i);
      }
      if forall i :: 0 <= i < NINODE ==> slots[i].ref > 0 {
        FullCache(slots);
      }
    }
  }

  /** The references of a walk that holds slot i, over those of everybody else. */
  lemma HeldByWalk(slots: seq<Slot>, slots': seq<Slot>, i: nat)
    requires Inv(slots') && i < NINODE && slots'[i].ref > 0 && slots'[i].dev == ROOTDEV
    requires Gained(slots, slots', ROOTDEV, slots'[i].inum)
    ensures Keys(slots') == Keys(slots) + {Key(ROOTDEV, slots'[i].inum)}
    ensures slots'[i].ref == 1 <==> Key(ROOTDEV, slots'[i].inum) !in Keys(slots)
  {
    OnlySlot(slots', i);
    assert Refs(slots', ROOTDEV, slots'[i].inum) == Refs(slots, ROOTDEV, slots'[i].inum) + 1;
    KeysAreRefs(slots, ROOTDEV, slots'[i].inum);
    forall k: Key ensures k in Keys(slots') <==> k in Keys(slots) || k == Key(ROOTDEV, slots'[i].inum) {
      KeysAreRefs(slots', k.dev, k.inum);
      KeysAreRefs(slots, k.dev, k.inum);
    }
  }

  // ---- paths ----

  function Truncate(s: string): string {
    if |s| <= DIRSIZ then s else s[..DIRSIZ]
  }

  /** The length of the path element at the front. */
  function ElemLen(path: string): (n: nat)
    ensures n <= |path| && (forall i :: 0 <= i < n ==> path[i] != '/') && (n < |path| ==> path[n] == '/')
  {
    if path == [] || path[0] == '/' then 0 else 1 + ElemLen(path[1..])
  }

  /** What a path means: its nonempty elements, each cut to 14 characters. */
  function Elements(path: string): seq<string>
    decreases |path|
  {
    if path == [] then []
    else if path[0] == '/' then Elements(path[1..])
    else [Truncate(path[..ElemLen(path)])] + Elements(path[ElemLen(path)..])
  }

  /** Names one after another, with a slash before each. */
  function Joined(names: seq<string>): string {
    if names == [] then "" else Joined(names[..|names| - 1]) + "/" + names[|names| - 1]
  }

  predicate IsName(s: string) {
    s != "" && forall i :: 0 <= i < |s| ==> s[i] != '/'
  }

  lemma {:induction false} ElementsJoin(path: string, name: string)
    requires IsName(name)
    ensures Elements(path + "/" + name) == Elements(path) + [Truncate(name)]
    decreases |path|
  {
    var all := path + "/" + name;
    if path == "" {
      assert all[1..] == name && ElemLen(name) == |name|;
      assert name[..|name|] == name && name[|name|..] == "";
    } else if path[0] == '/' {
      assert all[1..] == path[1..] + "/" + name;
      ElementsJoin(path[1..], name);
    } else {
      var n := ElemLen(path);
      assert all[n] == (if n < |path| then path[n] else '/');
      FrontElement(all, 0, n);
      assert all[0..] == all && all[0..n] == path[..n] && all[n..] == path[n..] + "/" + name;
      ElementsJoin(path[n..], name);
    }
  }

  /** The elements of a path of names are those names, each cut to 14 characters. */
  lemma {:induction false} ElementsOfJoined(names: seq<string>)
    requires forall i :: 0 <= i < |names| ==> IsName(names[i])
    ensures |Elements(Joined(names))| == |names|
    ensures forall i :: 0 <= i < |names| ==>
      Elements(Joined(names))[i] == if |names[i]| <= 14 then names[i] else names[i][..14]
    decreases |names|
  {
    if names != [] {
      var n := |names| - 1;
      ElementsOfJoined(names[..n]);
      ElementsJoin(Joined(names[..n]), names[n]);
    }
  }

  lemma NoElements(path: string)
    requires path == [] || path[0] != '/'
    ensures Elements(path) == [] <==> path == []
  {
  }

  /** The loops `while(*path == '/') path++`. */
  method SkipSlashes(path: string, i: nat) returns (j: nat)
    requires i <= |path|
    ensures i <= j <= |path| && (j < |path| ==> path[j] != '/') && Elements(path[j..]) == Elements(path[i..])
  {
    j := i;
    while j < |path| && path[j] == '/'
      invariant i <= j <= |path| && Elements(path[j..]) == Elements(path[i..])
    {
      assert path[j..][1..] == path[j + 1..];
      j := j + 1;
    }
  }

  lemma FrontElement(path: string, s: nat, e: nat)
    requires s < e <= |path| && (forall j :: s <= j < e ==> path[j] != '/') && (e < |path| ==> path[e] == '/')
    ensures Elements(path[s..]) == [Truncate(path[s..e])] + Elements(path[e..])
  {
    assert ElemLen(path[s..]) == e - s;
    assert path[s..][..e - s] == path[s..e] && path[s..][e - s..] == path[e..];
  }

  /** skipelem: the first element and the rest of the path, which has no leading slash; or nothing. */
  method SkipElem(path: string) returns (r: Option<(string, string)>)
    ensures r.None? <==> Elements(path) == []
    ensures r.Some? ==> Elements(path) == [r.value.0] + Elements(r.value.1) && |r.value.1| < |path|
    ensures r.Some? ==> |r.value.0| <= DIRSIZ && (r.value.1 == "" <==> |Elements(path)| == 1)
  {
    hide Elements;
    var s := SkipSlashes(path, 0);
    assert path[0..] == path;
    NoElements(path[s..]);
    if s == |path| {
      return None;
    }
    var e := s;
    while e < |path| && path[e] != '/'
      invariant s <= e <= |path| && forall j :: s <= j < e ==> path[j] != '/'
    {
      e := e + 1;
    }
    FrontElement(path, s, e);
    var i := SkipSlashes(path, e);
    NoElements(path[i..]);
    r := Some((Truncate(path[s..e]), path[i..]));
  }

  // ---- directories ----

  /** The first live entry of that name. */
  function Find(entries: seq<Entry>, name: string): (r: Option<nat>)
    ensures r.Some? ==> r.value != 0
  {
    if entries == [] then None
    else if entries[0].inum != 0 && entries[0].name == name then Some(entries[0].inum)
    else Find(entries[1..], name)
  }

  /** Entry k is the first that is in use and has this name. */
  ghost predicate FirstNamed(entries: seq<Entry>, name: string, k: int) {
    && 0 <= k < |entries| && entries[k].inum != 0 && entries[k].name == name
    && forall j :: 0 <= j < k ==> entries[j].inum == 0 || entries[j].name != name
  }

  /** A lookup in a directory finds the first entry in use with that name, and nothing exactly when there is none. */
  lemma {:induction false} FindIsFirst(entries: seq<Entry>, name: string)
    ensures Find(entries, name).None? <==> forall k :: 0 <= k < |entries| ==> entries[k].inum == 0 || entries[k].name != name
    ensures forall k :: FirstNamed(entries, name, k) ==> Find(entries, name) == Some(entries[k].inum)
  {
    if entries != [] && !(entries[0].inum != 0 && entries[0].name == name) {
      var rest := entries[1..];
      FindIsFirst(rest, name);
      forall k | FirstNamed(entries, name, k) ensures Find(entries, name) == Some(entries[k].inum) {
        assert FirstNamed(rest, name, k - 1);
      }
      assert forall k :: 0 <= k < |rest| ==> rest[k] == entries[k + 1];
      assert forall k :: 0 < k < |entries| ==> entries[k] == rest[k - 1];
    }
  }

  function NodeOf(disk: map<nat, Node>, inum: nat): Node {
    if inum in disk then disk[inum] else Node(0, 0, 0, "", [])
  }

  /** The execute permission that namex asks for. */
  predicate MaySearch(n: Node, user: string) {
    if user == "root" || user == n.userid then n.mode / XUSR % 2 == 1 else n.mode / XOTH % 2 == 1
  }

  /** Where a walk along these names ends, if every directory on the way lets it pass. */
  function Walk(disk: map<nat, Node>, user: string, start: nat, names: seq<string>): Option<nat>
    decreases |names|
  {
    if names == [] then Some(start)
    else
      var n := NodeOf(disk, start);
      if n.typ != T_DIR || !MaySearch(n, user) then None
      else match Find(n.entries, names[0])
           case None => None
           case Some(next) => Walk(disk, user, next, names[1..])
  }

  /** The directory of the last name, which must let the walk pass as well. */
  function WalkParent(disk: map<nat, Node>, user: string, start: nat, names: seq<string>): Option<nat> {
    if names == [] then None
    else match Walk(disk, user, start, names[..|names| - 1])
         case None => None
         case Some(d) => if NodeOf(disk, d).typ == T_DIR && MaySearch(NodeOf(disk, d), user) then Some(d) else None
  }

  // ---- what namex does ----

  /** How a lookup ends; NoInodes and NoType are the panics "iget: no inodes" and "ilock: no type". */
  datatype Lookup = Leads(inum: nat) | Nowhere | NoInodes | NoType

  /** The disk after a reference to inode n is dropped: freed if that was the last one and it has no links. */
  function Dropped(disk: map<nat, Node>, n: nat, last: bool): map<nat, Node> {
    if last && NodeOf(disk, n).nlink == 0 then disk[n := NodeOf(disk, n).(typ := 0, entries := [])] else disk
  }

  /** The walk with all it does: inodes that it passes lose its reference, and may be freed under it. `held` are the
      inodes that somebody else refers to. */
  ghost function Resolve(disk: map<nat, Node>, held: set<Key>, user: string, at: nat, names: seq<string>, parent: bool)
    : (Lookup, map<nat, Node>)
    decreases |names|
  {
    var n, last := NodeOf(disk, at), Key(ROOTDEV, at) !in held;
    if names == [] then (if parent then Nowhere else Leads(at), disk)
    else if n.typ == 0 then (NoType, disk)
    else if n.typ != T_DIR || !MaySearch(n, user) then (Nowhere, Dropped(disk, at, last))
    else if parent && |names| == 1 then (Leads(at), disk)
    else match Find(n.entries, names[0])
         case None => (Nowhere, Dropped(disk, at, last))
         case Some(next) =>
           if NoSlotFor(held + {Key(ROOTDEV, at)}, next) then (NoInodes, disk)
           else Resolve(Dropped(disk, at, last && next != at), held, user, next, names[1..], parent)
  }

  /** The plain walk's end as the end of a lookup. */
  ghost function Ending(target: Option<nat>): Lookup {
    match target
    case None => Nowhere
    case Some(n) => Leads(n)
  }

  /** Every inode that the walk locks is in use; one that it leaves for another has links, or is held by somebody else;
      and the inode cache has a slot for each one it goes to. */
  ghost predicate Passable(disk: map<nat, Node>, held: set<Key>, user: string, at: nat, names: seq<string>, parent: bool)
    decreases |names|
  {
    names == [] ||
    (var n, stop := NodeOf(disk, at), parent && |names| == 1;
     var stays := n.nlink > 0 || Key(ROOTDEV, at) in held;
     n.typ != 0 &&
     match Next(disk, user, at, stop, names[0])
     case None => stays
     case Some(next) =>
       stop || (&& !NoSlotFor(held + {Key(ROOTDEV, at)}, next) && (stays || next == at)
                && Passable(disk, held, user, next, names[1..], parent)))
  }

  /** What is free on the disk stays free during a lookup. */
  lemma {:induction false} FreeStaysFree(disk: map<nat, Node>, held: set<Key>, user: string, at: nat, names: seq<string>,
                                         parent: bool, m: nat)
    requires NodeOf(disk, m).typ == 0
    ensures NodeOf(Resolve(disk, held, user, at, names, parent).1, m).typ == 0
    decreases |names|
  {
    if names != [] {
      var next, last := Find(NodeOf(disk, at).entries, names[0]), Key(ROOTDEV, at) !in held;
      if next.Some? {
        FreeStaysFree(Dropped(disk, at, last && next.value != at), held, user, next.value, names[1..], parent, m);
      }
    }
  }

  /** The lookup frees nothing, does not panic and leads where the path leads, if and only if the way is passable. */
  lemma {:induction false} ResolveIsWalk(disk: map<nat, Node>, held: set<Key>, user: string, at: nat, names: seq<string>, parent: bool)
    ensures Resolve(disk, held, user, at, names, parent) == (Ending(Target(disk, user, at, names, parent)), disk)
            <==> Passable(disk, held, user, at, names, parent)
    decreases |names|
  {
    TargetEnd(disk, user, at, parent);
    if names != [] {
      var rest, stop, last := names[1..], parent && |names| == 1, Key(ROOTDEV, at) !in held;
      TargetStep(disk, user, at, names, parent, names[0], rest);
      ResolveStep(disk, held, user, at, names, parent, names[0], rest);
      var next := Next(disk, user, at, stop, names[0]);
      if next.Some? && !stop {
        ResolveIsWalk(disk, held, user, next.value, rest, parent);
        if NodeOf(disk, at).typ != 0 && last && next.value != at && NodeOf(disk, at).nlink == 0 {
          FreeStaysFree(Dropped(disk, at, true), held, user, next.value, rest, parent, at);
        }
      }
    }
  }

  // ---- permissions ----

  /** A directory that lets this user search it: the owner and root by bit 3 of its mode, all others by bit 0. */
  ghost predicate Open(n: Node, user: string) {
    n.typ == 1 && (if user == "root" || user == n.userid then n.mode / 8 % 2 == 1 else n.mode % 2 == 1)
  }

  /** Where names lead from `at`, permissions aside. */
  ghost function Trail(disk: map<nat, Node>, at: nat, names: seq<string>): Option<nat>
    decreases |names|
  {
    if names == [] then Some(at)
    else match Find(NodeOf(disk, at).entries, names[0])
         case None => None
         case Some(next) => Trail(disk, next, names[1..])
  }

  ghost predicate OpenAt(disk: map<nat, Node>, user: string, at: nat, names: seq<string>) {
    Trail(disk, at, names).Some? && Open(NodeOf(disk, Trail(disk, at, names).value), user)
  }

  /** What a lookup is for: the end of the names, or the directory of the last of them. */
  ghost function Destination(disk: map<nat, Node>, at: nat, names: seq<string>, parent: bool): Option<nat> {
    if !parent then Trail(disk, at, names) else if names == [] then None else Trail(disk, at, names[..|names| - 1])
  }

  /** There is a destination, and every directory that a name is looked up in lets the user search it. */
  ghost predicate Granted(disk: map<nat, Node>, user: string, at: nat, names: seq<string>, parent: bool) {
    Destination(disk, at, names, parent).Some? && forall k :: 0 <= k < |names| ==> OpenAt(disk, user, at, names[..k])
  }

  lemma DestinationStep(disk: map<nat, Node>, at: nat, names: seq<string>, parent: bool)
    requires names != []
    ensures var next := Find(NodeOf(disk, at).entries, names[0]);
      Destination(disk, at, names, parent) ==
      if parent && |names| == 1 then Some(at)
      else match next case None => None case Some(n) => Destination(disk, n, names[1..], parent)
  {
    if parent && |names| > 1 {
      var front := names[..|names| - 1];
      assert front[0] == names[0] && front[1..] == names[1..][..|names| - 2];
    }
  }

  lemma GrantedStep(disk: map<nat, Node>, user: string, at: nat, names: seq<string>, parent: bool)
    requires names != []
    ensures var next := Find(NodeOf(disk, at).entries, names[0]);
      Granted(disk, user, at, names, parent) <==>
      && Open(NodeOf(disk, at), user)
      && ((parent && |names| == 1) || (next.Some? && Granted(disk, user, next.value, names[1..], parent)))
  {
    hide Destination, Open;
    DestinationStep(disk, at, names, parent);
    var next, rest := Find(NodeOf(disk, at).entries, names[0]), names[1..];
    assert names[..0] == [];
    assert OpenAt(disk, user, at, names[..0]) <==> Open(NodeOf(disk, at), user);
    if next.Some? {
      forall k | 0 < k < |names| ensures OpenAt(disk, user, at, names[..k]) <==> OpenAt(disk, user, next.value, rest[..k - 1]) {
        assert names[..k][1..] == rest[..k - 1];
      }
      if Granted(disk, user, at, names, parent) {
        forall k | 0 <= k < |rest| ensures OpenAt(disk, user, next.value, rest[..k]) {
          assert OpenAt(disk, user, at, names[..k + 1]);
        }
      }
    }
  }

  /** The plain walk, said without its steps. */
  lemma {:induction false} TargetIsGranted(disk: map<nat, Node>, user: string, at: nat, names: seq<string>, parent: bool)
    ensures Target(disk, user, at, names, parent) ==
            if Granted(disk, user, at, names, parent) then Destination(disk, at, names, parent) else None
    decreases |names|
  {
    hide Granted, Destination;
    TargetEnd(disk, user, at, parent);
    if names == [] {
      GrantedEnd(disk, user, at, parent);
    } else {
      TargetStep(disk, user, at, names, parent, names[0], names[1..]);
      GrantedStep(disk, user, at, names, parent);
      DestinationStep(disk, at, names, parent);
      var next := Find(NodeOf(disk, at).entries, names[0]);
      if next.Some? {
        TargetIsGranted(disk, user, next.value, names[1..], parent);
      }
    }
  }

  lemma GrantedEnd(disk: map<nat, Node>, user: string, at: nat, parent: bool)
    ensures Destination(disk, at, [], parent) == if parent then None else Some(at)
    ensures Granted(disk, user, at, [], parent) <==> !parent
  {
  }

  /** What was granted with an inode freed is granted with it there, since nobody searches a free inode. */
  lemma {:induction false} GrantedBefore(disk: map<nat, Node>, n: nat, last: bool, user: string, at: nat,
                                         names: seq<string>, parent: bool)
    requires Granted(Dropped(disk, n, last), user, at, names, parent)
    ensures Granted(disk, user, at, names, parent)
    ensures Destination(disk, at, names, parent) == Destination(Dropped(disk, n, last), at, names, parent)
    decreases |names|
  {
    hide Granted, Destination;
    var disk' := Dropped(disk, n, last);
    if names == [] {
      GrantedEnd(disk, user, at, parent);
      GrantedEnd(disk', user, at, parent);
    } else {
      GrantedStep(disk, user, at, names, parent);
      GrantedStep(disk', user, at, names, parent);
      DestinationStep(disk, at, names, parent);
      DestinationStep(disk', at, names, parent);
      assert NodeOf(disk', at) == NodeOf(disk, at);
      var next := Find(NodeOf(disk, at).entries, names[0]);
      if next.Some? && !(parent && |names| == 1) {
        GrantedBefore(disk, n, last, user, next.value, names[1..], parent);
      }
    }
  }

  /** Whatever is freed on the way: a lookup that leads somewhere leads to its destination, through directories that let
      the user search them. */
  lemma {:induction false} ResolveIsGranted(disk: map<nat, Node>, held: set<Key>, user: string, at: nat,
                                            names: seq<string>, parent: bool)
    requires Resolve(disk, held, user, at, names, parent).0.Leads?
    ensures Granted(disk, user, at, names, parent)
    ensures Destination(disk, at, names, parent) == Some(Resolve(disk, held, user, at, names, parent).0.inum)
    decreases |names|
  {
    hide Granted, Destination;
    if names == [] {
      GrantedEnd(disk, user, at, parent);
    } else {
      GrantedStep(disk, user, at, names, parent);
      DestinationStep(disk, at, names, parent);
      var next, last := Find(NodeOf(disk, at).entries, names[0]), Key(ROOTDEV, at) !in held;
      if !(parent && |names| == 1) {
        var freed := last && next.value != at;
        ResolveIsGranted(Dropped(disk, at, freed), held, user, next.value, names[1..], parent);
        GrantedBefore(disk, at, freed, user, next.value, names[1..], parent);
      }
    }
  }

  /** On a passable way it leads there exactly when that is granted. */
  lemma LookupIsGranted(disk: map<nat, Node>, held: set<Key>, user: string, at: nat, names: seq<string>, parent: bool)
    ensures var o := Resolve(disk, held, user, at, names, parent).0;
      && (o.Leads? ==> Granted(disk, user, at, names, parent) && Destination(disk, at, names, parent) == Some(o.inum))
      && (Passable(disk, held, user, at, names, parent) ==> o.Leads? || o.Nowhere?)
      && (Passable(disk, held, user, at, names, parent) ==> (o.Leads? <==> Granted(disk, user, at, names, parent)))
  {
    hide Granted, Destination, Passable, Resolve, Target;
    TargetIsGranted(disk, user, at, names, parent);
    ResolveIsWalk(disk, held, user, at, names, parent);
    if Resolve(disk, held, user, at, names, parent).0.Leads? {
      ResolveIsGranted(disk, held, user, at, names, parent);
    } else if Granted(disk, user, at, names, parent) {
      GrantedLeads(disk, user, at, names, parent);
    }
  }

  lemma GrantedLeads(disk: map<nat, Node>, user: string, at: nat, names: seq<string>, parent: bool)
    requires Granted(disk, user, at, names, parent)
    ensures Destination(disk, at, names, parent).Some?
  {
  }

  /** Every inode on the way is in use, and linked or referred to by somebody else. */
  ghost predicate Solid(disk: map<nat, Node>, held: set<Key>, user: string, at: nat, names: seq<string>)
    decreases |names|
  {
    && NodeOf(disk, at).typ != 0 && (NodeOf(disk, at).nlink > 0 || Key(ROOTDEV, at) in held)
    && (names != [] && Next(disk, user, at, false, names[0]).Some? ==>
          Solid(disk, held, user, Next(disk, user, at, false, names[0]).value, names[1..]))
  }

  /** Such a way is passable when two slots of the inode cache are free. */
  lemma {:induction false} SolidPasses(disk: map<nat, Node>, held: set<Key>, user: string, at: nat, names: seq<string>, parent: bool)
    requires Solid(disk, held, user, at, names) && |held| + 2 <= NINODE
    ensures Passable(disk, held, user, at, names, parent)
    decreases |names|
  {
    if names != [] {
      var next := Next(disk, user, at, false, names[0]);
      if next.Some? && !(parent && |names| == 1) {
        assert |held + {Key(ROOTDEV, at)}| <= |held| + 1;
        SolidPasses(disk, held, user, next.value, names[1..], parent);
      }
    }
  }

  /** The entries of directories that have links lead to inodes that are in use and have links. */
  ghost predicate Sound(disk: map<nat, Node>) {
    forall n, name :: NodeOf(disk, n).typ == T_DIR && NodeOf(disk, n).nlink > 0 && Find(NodeOf(disk, n).entries, name).Some? ==>
      var m := NodeOf(disk, Find(NodeOf(disk, n).entries, name).value);
      m.typ != 0 && m.nlink > 0
  }

  /** In a sound file system every way is solid that starts from the root or from another directory with links. */
  lemma {:induction false} SoundIsSolid(disk: map<nat, Node>, held: set<Key>, user: string, at: nat, names: seq<string>)
    requires Sound(disk) && NodeOf(disk, at).typ != 0 && NodeOf(disk, at).nlink > 0
    ensures Solid(disk, held, user, at, names)
    decreases |names|
  {
    if names != [] && Next(disk, user, at, false, names[0]).Some? {
      SoundIsSolid(disk, held, user, Next(disk, user, at, false, names[0]).value, names[1..]);
    }
  }

  // ---- a current directory that was removed ----

  function WithoutEntry(entries: seq<Entry>, name: string): seq<Entry> {
    if entries == [] then []
    else if entries[0].inum != 0 && entries[0].name == name then [Entry(0, "")] + entries[1..]
    else [entries[0]] + WithoutEntry(entries[1..], name)
  }

  /** isdirempty: nothing behind the first two entries. */
  predicate IsEmptyDir(n: Node) {
    forall k :: 2 <= k < |n.entries| ==> n.entries[k].inum == 0
  }

  /** sys_unlink of directory n, entry `name` of directory d, up to the iput that may free n. */
  function Unlinked(disk: map<nat, Node>, d: nat, name: string, n: nat): map<nat, Node>
    requires NodeOf(disk, d).nlink > 0 && NodeOf(disk, n).nlink > 0 && n != d
  {
    var dir, sub := NodeOf(disk, d), NodeOf(disk, n);
    disk[d := dir.(entries := WithoutEntry(dir.entries, name), nlink := dir.nlink - 1)][n := sub.(nlink := sub.nlink - 1)]
  }

  /** A directory b in a directory a in the root, as mkdir makes them. */
  function Nested(): map<nat, Node> {
    map[1 := Node(T_DIR, 2, 61, "root", [Entry(1, "."), Entry(1, ".."), Entry(2, "a")]),
        2 := Node(T_DIR, 2, 61, "root", [Entry(2, "."), Entry(1, ".."), Entry(3, "b")]),
        3 := Node(T_DIR, 1, 61, "root", [Entry(3, "."), Entry(2, "..")])]
  }

  /** A process works in b while others remove b and then a. a is freed, b is held by the process alone, and `../x` panics
      with "ilock: no type" although the path just leads nowhere. */
  lemma RemovedParent()
    ensures var first := Unlinked(Nested(), 2, "b", 3);
            && IsEmptyDir(Nested()[3]) && IsEmptyDir(first[2]) && Find(first[1].entries, "a") == Some(2) && first[2].nlink > 0
            && (var disk, held := Dropped(Unlinked(first, 1, "a", 2), 2, true), {Key(ROOTDEV, 3)};
                && Find(NodeOf(disk, 3).entries, "..") == Some(2) && NodeOf(disk, 2).typ == 0
                && Target(disk, "root", 3, ["..", "x"], false) == None
                && Resolve(disk, held, "root", 3, ["..", "x"], false) == (NoType, disk)
                && !Passable(disk, held, "root", 3, ["..", "x"], false))
  {
    var first := Unlinked(Nested(), 2, "b", 3);
    var e1, e2 := Nested()[1].entries, Nested()[2].entries;
    assert e2[1..] == [Entry(1, ".."), Entry(3, "b")] && e2[1..][1..] == [Entry(3, "b")];
    assert WithoutEntry(e2, "b") == [Entry(2, "."), Entry(1, ".."), Entry(0, "")];
    assert e1[1..] == [Entry(1, ".."), Entry(2, "a")] && e1[1..][1..] == [Entry(2, "a")];
    assert Find(e1, "a") == Some(2);
    var disk, held := Dropped(Unlinked(first, 1, "a", 2), 2, true), {Key(ROOTDEV, 3)};
    var e3 := NodeOf(disk, 3).entries;
    assert e3[1..] == [Entry(2, "..")] && Find(e3, "..") == Some(2);
    var names := ["..", "x"];
    assert names[1..] == ["x"];
    assert Resolve(disk, held, "root", 2, ["x"], false) == (NoType, disk);
    assert Walk(disk, "root", 2, ["x"]) == None;
    ResolveIsWalk(disk, held, "root", 3, names, false);
  }

  /** Entries that fit in the largest file: 135 blocks of 512 bytes, 16 bytes each. */
  const MAXENTRIES := 4320

  /** How dirlink ends; NoSlot and TooBig are panics. */
  datatype LinkResult = Linked | Exists | Deadlock | NoSlot | TooBig

  ghost predicate Full(entries: seq<Entry>) {
    |entries| >= MAXENTRIES && forall k :: 0 <= k < MAXENTRIES ==> entries[k].inum != 0
  }

  /** Directory n now has this entry: its name leads to inum, every other name where it led before. */
  ghost predicate LinkedIn(disk: map<nat, Node>, disk': map<nat, Node>, n: nat, name: string, inum: nat) {
    && n in disk' && disk' == disk[n := disk'[n]] && disk'[n] == NodeOf(disk, n).(entries := disk'[n].entries)
    && forall x :: Find(disk'[n].entries, x) == if x == name then Some(inum) else Find(NodeOf(disk, n).entries, x)
  }

  function WithEntry(entries: seq<Entry>, off: nat, e: Entry): seq<Entry>
    requires off <= |entries|
  {
    if off < |entries| then entries[off := e] else entries + [e]
  }

  lemma {:induction false} FindAfterLink(entries: seq<Entry>, off: nat, e: Entry)
    requires off <= |entries| && e.inum != 0 && Find(entries, e.name).None? && (off < |entries| ==> entries[off].inum == 0)
    ensures forall x :: Find(WithEntry(entries, off, e), x) == if x == e.name then Some(e.inum) else Find(entries, x)
    decreases off
  {
    if off > 0 {
      FindAfterLink(entries[1..], off - 1, e);
      assert WithEntry(entries, off, e)[1..] == WithEntry(entries[1..], off - 1, e);
    } else if entries != [] {
      assert WithEntry(entries, off, e)[1..] == entries[1..];
    }
  }

  /** How namex ends; the panics are "iget: no inodes" and "ilock: no type". */
  datatype Result = Found(slot: nat) | NotFound | Panic

  class Icache {
    var slots: seq<Slot>
    var disk: map<nat, Node>

    ghost predicate Valid()
      reads this
    {
      Inv(slots) && Allocated(slots, disk) && OneDevice(slots)
    }

    constructor (disk: map<nat, Node>)
      ensures Valid() && Unlocked(slots) && this.disk == disk
      ensures forall i :: 0 <= i < |slots| ==> slots[i].ref == 0
    {
      slots := seq(NINODE, i => Slot(0, 0, 0, false, false));
      this.disk := disk;
    }

    /** iget: the slot of the inode, or else an unreferenced one; None is its panic. */
    method Iget(dev: nat, inum: nat) returns (r: Option<nat>)
      requires Valid() && dev == ROOTDEV
      modifies `slots
      ensures Valid()
      ensures r.None? <==> NoSlotFor(Keys(old(slots)), inum)
      ensures r.None? ==> slots == old(slots)
      ensures r.Some? ==> r.value < NINODE && slots == old(slots)[r.value := slots[r.value]] && Caches(slots[r.value], dev, inum)
      ensures r.Some? ==> Gained(old(slots), slots, dev, inum) && slots[r.value].locked == old(slots)[r.value].locked
      ensures r.Some? ==> slots[r.value].ref == old(slots)[r.value].ref + 1
      ensures r.Some? && old(slots)[r.value].ref > 0 ==> Caches(old(slots)[r.value], dev, inum)
      ensures r.Some? ==> slots[r.value].valid == (old(slots)[r.value].ref > 0 && old(slots)[r.value].valid)
    {
      NoSlotIff(slots, inum);
      var empty: Option<nat> := None;
      var i := 0;
      while i < NINODE
        invariant 0 <= i <= NINODE && slots == old(slots)
        invariant forall j :: 0 <= j < i ==> !Caches(slots[j], dev, inum)
        invariant empty.Some? ==> empty.value < i && slots[empty.value].ref == 0
        invariant empty.None? ==> forall j :: 0 <= j < i ==> slots[j].ref > 0
      {
        if slots[i].ref > 0 && slots[i].dev == dev && slots[i].inum == inum {
          SetSlot(slots, i, slots[i].(ref := slots[i].ref + 1));
          slots := slots[i := slots[i].(ref := slots[i].ref + 1)];
          return Some(i);
        }
        if empty.None? && slots[i].ref == 0 {
          empty := Some(i);
        }
        i := i + 1;
      }
      if empty.None? {
        return None;
      }
      var e := empty.value;
      SetSlot(slots, e, slots[e].(dev := dev, inum := inum, ref := 1, valid := false));
      slots := slots[e := slots[e].(dev := dev, inum := inum, ref := 1, valid := false)];
      r := empty;
    }

    method Idup(i: nat)
      requires Valid() && i < NINODE && slots[i].ref > 0
      modifies `slots
      ensures Valid() && slots == old(slots)[i := old(slots)[i].(ref := old(slots)[i].ref + 1)]
      ensures Gained(old(slots), slots, slots[i].dev, slots[i].inum)
    {
      SetSlot(slots, i, slots[i].(ref := slots[i].ref + 1));
      slots := slots[i := slots[i].(ref := slots[i].ref + 1)];
    }

    /** ilock; false is its panic on a free inode. */
    method Ilock(i: nat) returns (ok: bool)
      requires Valid() && i < NINODE && slots[i].ref > 0 && !slots[i].locked
      modifies `slots
      ensures ok <==> old(slots)[i].valid || NodeOf(disk, old(slots)[i].inum).typ != 0
      ensures slots == old(slots)[i := old(slots)[i].(locked := true, valid := true)] && Balanced(old(slots), slots)
      ensures ok ==> Valid()
    {
      ok := slots[i].valid || NodeOf(disk, slots[i].inum).typ != 0;
      SetSlot(slots, i, slots[i].(locked := true, valid := true));
      slots := slots[i := slots[i].(locked := true, valid := true)];
    }

    method Iunlock(i: nat)
      requires Valid() && i < NINODE && slots[i].ref > 0 && slots[i].locked
      modifies `slots
      ensures Valid() && slots == old(slots)[i := old(slots)[i].(locked := false)] && Balanced(old(slots), slots)
    {
      SetSlot(slots, i, slots[i].(locked := false));
      slots := slots[i := slots[i].(locked := false)];
    }

    /** iput: one reference less; the inode is freed on disk exactly when that was the last one and it has no links. */
    method Iput(i: nat)
      requires Valid() && i < NINODE && slots[i].ref > 0 && !slots[i].locked
      modifies this
      ensures Valid() && Gained(slots, old(slots), old(slots)[i].dev, old(slots)[i].inum)
      ensures Unlocked(old(slots)) ==> Unlocked(slots)
      ensures slots == old(slots)[i := old(slots)[i].(ref := old(slots)[i].ref - 1, valid := slots[i].valid)]
      ensures disk == Dropped(old(disk), old(slots)[i].inum, old(slots)[i].valid && old(slots)[i].ref == 1)
      ensures forall n :: n != old(slots)[i].inum ==> NodeOf(disk, n) == NodeOf(old(disk), n)
      ensures var n, freed := NodeOf(old(disk), old(slots)[i].inum), NodeOf(disk, old(slots)[i].inum);
        if old(slots)[i].valid && old(slots)[i].ref == 1 && n.nlink == 0
        then freed.typ == 0 && freed.entries == [] && freed.nlink == 0 && !slots[i].valid
        else freed == n && slots[i].valid == old(slots)[i].valid
    {
      var s := slots[i];
      var v := s.valid;
      if s.valid && NodeOf(disk, s.inum).nlink == 0 && s.ref == 1 {
        disk := disk[s.inum := NodeOf(disk, s.inum).(typ := 0, entries := [])];
        v := false;
      }
      SetSlot(slots, i, s.(ref := s.ref - 1, valid := v));
      slots := slots[i := s.(ref := s.ref - 1, valid := v)];
    }

    method Iunlockput(i: nat)
      requires Valid() && i < NINODE && slots[i].ref > 0 && slots[i].locked && OnlyLocked(slots, i)
      modifies this
      ensures Valid() && Unlocked(slots) && Gained(slots, old(slots), old(slots)[i].dev, old(slots)[i].inum)
      ensures forall j :: 0 <= j < NINODE && j != i ==> slots[j] == old(slots)[j]
      ensures slots[i].dev == old(slots)[i].dev && slots[i].inum == old(slots)[i].inum && slots[i].ref == old(slots)[i].ref - 1
      ensures disk == Dropped(old(disk), old(slots)[i].inum, old(slots)[i].valid && old(slots)[i].ref == 1)
    {
      Iunlock(i);
      Iput(i);
    }

    /** dirlookup in a locked directory: the entry's inode with one more reference, nothing, or iget's panic. */
    method Dirlookup(i: nat, name: string) returns (r: Result)
      requires Valid() && i < NINODE && slots[i].ref > 0 && slots[i].locked && NodeOf(disk, slots[i].inum).typ == T_DIR
      modifies `slots
      ensures r.NotFound? <==> Find(NodeOf(disk, old(slots)[i].inum).entries, name).None?
      ensures r.NotFound? ==> slots == old(slots)
      ensures r.Panic? <==> var next := Find(NodeOf(disk, old(slots)[i].inum).entries, name);
                            next.Some? && NoSlotFor(Keys(old(slots)), next.value)
      ensures r.Found? ==> Valid() && r.slot < NINODE && slots[r.slot].ref > 0 && slots[r.slot].dev == ROOTDEV
      ensures r.Found? ==> Find(NodeOf(disk, old(slots)[i].inum).entries, name) == Some(slots[r.slot].inum)
      ensures r.Found? ==> var es := NodeOf(disk, old(slots)[i].inum).entries;
                exists k :: FirstNamed(es, name, k) && es[k].inum == slots[r.slot].inum
      ensures r.Found? ==> Gained(old(slots), slots, ROOTDEV, slots[r.slot].inum) && slots[i].inum == old(slots)[i].inum
      ensures r.Found? ==> forall j :: 0 <= j < NINODE ==> slots[j].locked == old(slots)[j].locked
      ensures r.Found? ==> slots[i].ref == old(slots)[i].ref + (if r.slot == i then 1 else 0)
      ensures r.Found? ==> slots[i].dev == old(slots)[i].dev && slots[i].valid == old(slots)[i].valid
      ensures r.Found? ==> (r.slot == i <==> slots[r.slot].inum == old(slots)[i].inum)
      ensures r.Found? ==> !slots[r.slot].valid || slots[r.slot].ref > 1
    {
      var entries := NodeOf(disk, slots[i].inum).entries;
      var off := 0;
      while off < |entries|
        invariant 0 <= off <= |entries| && slots == old(slots) && Find(entries[off..], name) == Find(entries, name)
        invariant forall j :: 0 <= j < off ==> entries[j].inum == 0 || entries[j].name != name
      {
        assert entries[off..][0] == entries[off] && entries[off..][1..] == entries[off + 1..];
        if entries[off].inum != 0 && entries[off].name == name {
          assert FirstNamed(entries, name, off);
          var got := Iget(slots[i].dev, entries[off].inum);
          if got.None? {
            return Panic;
          }
          return Found(got.value);
        }
        off := off + 1;
      }
      r := NotFound;
    }

    /** The second half of dirlink: the entry goes into the first free place. */
    method AddEntry(i: nat, name: string, inum: nat) returns (ok: bool)
      requires Valid() && i < NINODE && slots[i].ref > 0 && NodeOf(disk, slots[i].inum).typ == T_DIR && inum != 0
      requires Find(NodeOf(disk, slots[i].inum).entries, name).None?
      modifies `disk
      ensures Valid() && (ok <==> !Full(NodeOf(old(disk), slots[i].inum).entries))
      ensures ok ==> LinkedIn(old(disk), disk, slots[i].inum, name, inum)
      ensures !ok ==> disk == old(disk)
    {
      var n := slots[i].inum;
      var entries := NodeOf(disk, n).entries;
      var off := 0;
      while off < |entries| && entries[off].inum != 0
        invariant 0 <= off <= |entries| && forall k :: 0 <= k < off ==> entries[k].inum != 0
      {
        off := off + 1;
      }
      if off >= MAXENTRIES {
        return false;
      }
      var e := Entry(inum, name);
      FindAfterLink(entries, off, e);
      disk := disk[n := NodeOf(disk, n).(entries := WithEntry(entries, off, e))];
      ok := true;
    }

    /** dirlink in a locked directory: a new entry in the first free place, unless the name is taken. If the name is
        taken by the directory itself, iput waits for a lock its own caller holds. */
    method Dirlink(i: nat, name: string, inum: nat) returns (r: LinkResult)
      requires Valid() && i < NINODE && slots[i].ref > 0 && slots[i].locked && OnlyLocked(slots, i)
      requires NodeOf(disk, slots[i].inum).typ == T_DIR && |name| <= DIRSIZ && inum != 0
      modifies this
      ensures r.Exists? || r.Deadlock? ==> Find(NodeOf(old(disk), old(slots)[i].inum).entries, name).Some?
      ensures r.Deadlock? <==> Find(NodeOf(old(disk), old(slots)[i].inum).entries, name) == Some(old(slots)[i].inum)
      ensures r.Exists? ==> Valid() && Balanced(old(slots), slots) && slots[i].locked && OnlyLocked(slots, i)
      ensures r.NoSlot? <==> var next := Find(NodeOf(old(disk), old(slots)[i].inum).entries, name);
                             next.Some? && NoSlotFor(Keys(old(slots)), next.value)
      ensures r.Linked? || r.TooBig? <==> Find(NodeOf(old(disk), old(slots)[i].inum).entries, name).None?
      ensures r.TooBig? ==> Full(NodeOf(old(disk), old(slots)[i].inum).entries)
      ensures r.Linked? ==> Valid() && slots == old(slots) && LinkedIn(old(disk), disk, slots[i].inum, name, inum)
      ensures r.Linked? ==> !Full(NodeOf(old(disk), old(slots)[i].inum).entries)
      ensures !r.Linked? ==> disk == old(disk)
    {
      hide Find, Full, Refs, Keys;
      HeldBySlot(slots, i);
      var found := Dirlookup(i, name);
      match found {
        case Panic => return NoSlot;
        case Found(j) =>
          if j == i {
            return Deadlock;
          }
          DifferentSlots(slots, i, j);
          ghost var mid, n := slots, slots[j].inum;
          Iput(j);
          GainedBack(old(slots), mid, slots, n);
          return Exists;
        case NotFound =>
          var ok := AddEntry(i, name, inum);
          return if ok then Linked else TooBig;
      }
    }

    /** The start of namex: the root, or the current directory, with a reference of its own. */
    method Begin(path: string, cwd: nat) returns (r: Option<nat>)
      requires Valid() && Unlocked(slots) && cwd < NINODE && slots[cwd].ref > 0
      modifies `slots
      ensures r.None? <==> IsAbsolute(path) && NoSlotFor(Keys(old(slots)), ROOTINO)
      ensures r.Some? ==> Valid() && Unlocked(slots) && r.value < NINODE && slots[r.value].ref > 0
      ensures r.Some? ==> Gained(old(slots), slots, ROOTDEV, slots[r.value].inum)
      ensures r.Some? ==> slots[r.value].inum == Start(path, old(slots)[cwd].inum)
      ensures r.Some? ==> !slots[r.value].valid || slots[r.value].ref > 1
    {
      if path != "" && path[0] == '/' {
        r := Iget(ROOTDEV, ROOTINO);
      } else {
        Idup(cwd);
        r := Some(cwd);
      }
    }

    /** One step of namex at inode ip, which it holds one reference to: where to go on, or how it ends. */
    method Advance(ip: nat, user: string, stop: bool, name: string) returns (r: Result)
      requires Valid() && Unlocked(slots) && ip < NINODE && slots[ip].ref > 0
      modifies this
      ensures r != Panic ==> Valid() && Unlocked(slots)
      ensures r.Found? ==> r.slot < NINODE && slots[r.slot].ref > 0
      ensures r.Found? ==> Moved(old(slots), slots, old(slots)[ip].inum, slots[r.slot].inum)
      ensures r.NotFound? ==> Gained(slots, old(slots), ROOTDEV, old(slots)[ip].inum)
      ensures r.Panic? <==> Stuck(old(disk), Keys(old(slots)), user, old(slots)[ip].inum, stop, name)
      ensures r.Panic? ==> disk == old(disk)
      ensures r.Found? ==> Open(NodeOf(old(disk), old(slots)[ip].inum), user)
      ensures stop && Open(NodeOf(old(disk), old(slots)[ip].inum), user) ==> r == Found(ip)
      ensures r != Panic ==> (r.Found? <==> Next(old(disk), user, old(slots)[ip].inum, stop, name).Some?)
      ensures r.Found? ==> Next(old(disk), user, old(slots)[ip].inum, stop, name) == Some(slots[r.slot].inum)
      ensures r.Found? ==>
                disk == Dropped(old(disk), old(slots)[ip].inum, old(slots)[ip].ref == 1 && slots[r.slot].inum != old(slots)[ip].inum)
      ensures r.NotFound? ==> disk == Dropped(old(disk), old(slots)[ip].inum, old(slots)[ip].ref == 1)
    {
      hide Keys;
      var ok := Ilock(ip);
      SameKeys(old(slots), slots, ip);
      if !ok {
        return Panic;
      }
      var n := NodeOf(disk, slots[ip].inum);
      if n.typ != T_DIR || !MaySearch(n, user) {
        Iunlockput(ip);
        return NotFound;
      }
      if stop {
        Iunlock(ip);
        return Found(ip);
      }
      r := Dirlookup(ip, name);
      if r.Panic? {
        return;
      }
      Iunlockput(ip);
    }

    /** namex, for namei and nameiparent: whatever the path, the permissions and the outcome, it leaves no inode locked
        and exactly one more reference, on the inode it returns. What it returns, what it frees on the way and when it
        panics is exactly what Resolve says. */
    method Namex(path: string, parent: bool, user: string, cwd: nat) returns (r: Result, name: string)
      requires Valid() && Unlocked(slots) && cwd < NINODE && slots[cwd].ref > 0
      modifies this
      ensures r != Panic ==> Valid() && Unlocked(slots)
      ensures r.Found? ==> r.slot < NINODE && slots[r.slot].ref > 0 && Gained(old(slots), slots, ROOTDEV, slots[r.slot].inum)
      ensures r.NotFound? ==> Balanced(old(slots), slots)
      ensures IsAbsolute(path) && NoSlotFor(Keys(old(slots)), ROOTINO) ==> r.Panic? && disk == old(disk)
      ensures !(IsAbsolute(path) && NoSlotFor(Keys(old(slots)), ROOTINO)) ==>
        var (o, d) := Resolve(old(disk), Keys(old(slots)), user, Start(path, old(slots)[cwd].inum), Elements(path), parent);
        disk == d && Ends(r, slots, o)
      ensures var at, names := if path != "" && path[0] == '/' then 1 else old(slots)[cwd].inum, Elements(path);
        && (r.Found? ==> Granted(old(disk), user, at, names, parent))
        && (r.Found? ==> Destination(old(disk), at, names, parent) == Some(slots[r.slot].inum))
        && (Passable(old(disk), Keys(old(slots)), user, at, names, parent) &&
            !(IsAbsolute(path) && NoSlotFor(Keys(old(slots)), ROOTINO)) ==>
              if Granted(old(disk), user, at, names, parent) then r.Found? else r.NotFound?)
      ensures r.Found? && parent ==> Elements(path) != [] && name == Elements(path)[|Elements(path)| - 1]
    {
      hide Resolve, Next, Elements, Gained, Balanced, Moved, OneSlotEach, Allocated, OneDevice, Unlocked, Keys, Stuck, Dropped,
        Granted, Destination, Passable;
      name := "";
      var at := Begin(path, cwd);
      if at.None? {
        return Panic, name;
      }
      var ip, rest := at.value, path;
      ghost var held, names := Keys(old(slots)), Elements(path);
      ghost var spec := Resolve(disk, held, user, slots[ip].inum, names, parent);
      LookupIsGranted(disk, held, user, slots[ip].inum, names, parent);
      while true
        invariant Valid() && Unlocked(slots) && ip < NINODE && slots[ip].ref > 0
        invariant Gained(old(slots), slots, ROOTDEV, slots[ip].inum)
        invariant spec == Resolve(disk, held, user, slots[ip].inum, Elements(rest), parent)
        invariant Elements(rest) != [] ==> names != [] && Elements(rest)[|Elements(rest)| - 1] == names[|names| - 1]
        invariant parent && Elements(rest) == [] ==> !slots[ip].valid || slots[ip].ref > 1
        decreases |rest|
      {
        var e := SkipElem(rest);
        if e.None? {
          break;
        }
        name := e.value.0;
        ghost var all, was, slotsWas, here := Elements(rest), disk, slots, slots[ip].inum;
        rest := e.value.1;
        SlotDevice(slots, ip);
        HeldByWalk(old(slots), slots, ip);
        ResolveStep(disk, held, user, here, all, parent, name, Elements(rest));
        var stop := parent && rest == "";
        var step := Advance(ip, user, stop, name);
        match step {
          case Panic => return Panic, name;
          case NotFound =>
            GainedBack(old(slots), slotsWas, slots, here);
            return NotFound, name;
          case Found(next) =>
            GainedMoved(old(slots), slotsWas, slots, here, slots[next].inum);
            if stop {
              return Found(next), name;
            }
            ip := next;
        }
      }
      ResolveEnd(disk, held, user, slots[ip].inum, parent);
      if parent {
        SlotDevice(slots, ip);
        ghost var slotsWas := slots;
        NotDropped(disk, slots[ip].inum);
        Iput(ip);
        GainedBack(old(slots), slotsWas, slots, slotsWas[ip].inum);
        return NotFound, name;
      }
      r := Found(ip);
    }
  }

  /** What namex returns for each end of the lookup. */
  ghost predicate Ends(r: Result, slots: seq<Slot>, o: Lookup) {
    match o
    case Leads(n) => r.Found? && r.slot < |slots| && slots[r.slot].inum == n
    case Nowhere => r.NotFound?
    case NoInodes => r.Panic?
    case NoType => r.Panic?
  }

  /** The panics of one step, which holds inum and refers to the inodes `keys`. */
  ghost predicate Stuck(disk: map<nat, Node>, keys: set<Key>, user: string, inum: nat, stop: bool, name: string) {
    || NodeOf(disk, inum).typ == 0
    || (!stop && Next(disk, user, inum, false, name).Some? && NoSlotFor(keys, Next(disk, user, inum, false, name).value))
  }

  lemma ResolveEnd(disk: map<nat, Node>, held: set<Key>, user: string, at: nat, parent: bool)
    ensures Resolve(disk, held, user, at, [], parent) == (if parent then Nowhere else Leads(at), disk)
  {
  }

  /** One turn of namex's loop, as Resolve has it. */
  lemma ResolveStep(disk: map<nat, Node>, held: set<Key>, user: string, at: nat, names: seq<string>, parent: bool,
                    name: string, rest: seq<string>)
    requires names == [name] + rest
    ensures var stop, last := parent && rest == [], Key(ROOTDEV, at) !in held;
            var next := Next(disk, user, at, stop, name);
            var r := Resolve(disk, held, user, at, names, parent);
            if Stuck(disk, held + {Key(ROOTDEV, at)}, user, at, stop, name) then (r.0.NoInodes? || r.0.NoType?) && r.1 == disk
            else if next.None? then r == (Nowhere, Dropped(disk, at, last))
            else if stop then r == (Leads(next.value), Dropped(disk, at, last && next.value != at))
            else r == Resolve(Dropped(disk, at, last && next.value != at), held, user, next.value, rest, parent)
  {
    assert names[1..] == rest;
  }

  lemma SameKeys(slots: seq<Slot>, slots': seq<Slot>, i: nat)
    requires Balanced(slots, slots')
    ensures Keys(slots') == Keys(slots)
  {
    forall k: Key ensures k in Keys(slots') <==> k in Keys(slots) {
      KeysAreRefs(slots', k.dev, k.inum);
      KeysAreRefs(slots, k.dev, k.inum);
    }
  }

  lemma SlotDevice(slots: seq<Slot>, i: nat)
    requires i < |slots| && slots[i].ref > 0 && OneDevice(slots) && Unlocked(slots)
    ensures slots[i].dev == ROOTDEV && !slots[i].locked
  {
  }

  lemma NotDropped(disk: map<nat, Node>, n: nat)
    ensures Dropped(disk, n, false) == disk
  {
  }

  predicate IsAbsolute(path: string) {
    path != "" && path[0] == '/'
  }

  function Start(path: string, cwd: nat): nat {
    if IsAbsolute(path) then ROOTINO else cwd
  }

  function Target(disk: map<nat, Node>, user: string, start: nat, names: seq<string>, parent: bool): Option<nat> {
    if parent then WalkParent(disk, user, start, names) else Walk(disk, user, start, names)
  }

  /** Where one step leads: on to the entry, or no further than here. */
  function Next(disk: map<nat, Node>, user: string, inum: nat, stop: bool, name: string): Option<nat> {
    var n := NodeOf(disk, inum);
    if n.typ != T_DIR || !MaySearch(n, user) then None
    else if stop then Some(inum)
    else Find(n.entries, name)
  }

  /** The reference moved from one inode to another, which may be the same. */
  ghost predicate Moved(slots: seq<Slot>, slots': seq<Slot>, from: nat, to: nat) {
    forall d, n :: Refs(slots', d, n) + (if d == ROOTDEV && n == from then 1 else 0) ==
                   Refs(slots, d, n) + (if d == ROOTDEV && n == to then 1 else 0)
  }

  lemma DifferentSlots(slots: seq<Slot>, i: nat, j: nat)
    requires Inv(slots) && i < NINODE && j < NINODE && i != j && slots[i].ref > 0 && slots[j].ref > 0
    ensures slots[i].dev != slots[j].dev || slots[i].inum != slots[j].inum
  {
  }

  lemma GainedMoved(slots: seq<Slot>, slots1: seq<Slot>, slots2: seq<Slot>, from: nat, to: nat)
    requires Gained(slots, slots1, ROOTDEV, from) && Moved(slots1, slots2, from, to)
    ensures Gained(slots, slots2, ROOTDEV, to)
  {
  }

  lemma GainedBack(slots: seq<Slot>, slots1: seq<Slot>, slots2: seq<Slot>, inum: nat)
    requires Gained(slots, slots1, ROOTDEV, inum) && Gained(slots2, slots1, ROOTDEV, inum)
    ensures Balanced(slots, slots2)
  {
  }

  lemma TargetEnd(disk: map<nat, Node>, user: string, inum: nat, parent: bool)
    ensures Target(disk, user, inum, [], parent) == if parent then None else Some(inum)
  {
  }

  /** Taking one step and then walking the rest is walking the whole. */
  lemma TargetStep(disk: map<nat, Node>, user: string, inum: nat, names: seq<string>, parent: bool, name: string, rest: seq<string>)
    requires names == [name] + rest
    ensures var stop := parent && rest == [];
      Target(disk, user, inum, names, parent) ==
      match Next(disk, user, inum, stop, name)
      case None => None
      case Some(next) => if stop then Some(next) else Target(disk, user, next, rest, parent)
  {
    if parent && rest != [] {
      var front := names[..|names| - 1];
      assert front[0] == name && front[1..] == rest[..|rest| - 1];
    } else {
      assert names[1..] == rest;
    }
  }

  ghost predicate OnlyLocked(slots: seq<Slot>, i: nat) {
    forall j :: 0 <= j < |slots| && j != i ==> !slots[j].locked
  }

  predicate Caches(s: Slot, dev: nat, inum: nat) {
    s.ref > 0 && s.dev == dev && s.inum == inum
  }
}
