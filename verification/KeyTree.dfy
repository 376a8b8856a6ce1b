/** Deleting a registry key with every key under it: `Key::delete_tree` and `gather`, over a
    store that refuses to delete a key with children and may fail any call. */
module KeyTree {
  import opened Wrappers
  import opened Bytes
  import opened Utf8

  // ---- Trees of keys ----

  /** A key as it was when the tree was built; which keys are still there is the store's state. */
  datatype Key = Key(id: nat, name: seq<byte>, children: seq<Key>)

  /** Every identifier in a forest. */
  function Ids(ks: seq<Key>): set<nat> {
    if ks == [] then {} else {ks[0].id} + Ids(ks[0].children) + Ids(ks[1..])
  }

  predicate Contains(ks: seq<Key>, key: Key) {
    ks != [] && (ks[0] == key || Contains(ks[0].children, key) || Contains(ks[1..], key))
  }

  /** Identifiers are unique, and so are names among siblings. */
  predicate Distinct(ks: seq<Key>) {
    ks == [] ||
    (&& ks[0].id !in Ids(ks[0].children) + Ids(ks[1..])
     && Ids(ks[0].children) !! Ids(ks[1..])
     && (forall k <- ks[1..] :: k.name != ks[0].name)
     && Distinct(ks[0].children)
     && Distinct(ks[1..]))
  }

  /** No key is there without its parent. */
  predicate Closed(ks: seq<Key>, live: set<nat>) {
    ks == [] ||
    (&& (ks[0].id !in live ==> forall c <- ks[0].children :: c.id !in live)
     && Closed(ks[0].children, live)
     && Closed(ks[1..], live))
  }

  /** The keys of a list that are there, in order: what enumerating them yields. */
  function Living(ks: seq<Key>, live: set<nat>): (r: seq<Key>)
    ensures forall k :: k in r <==> k in ks && k.id in live
  {
    if ks == [] then []
    else if ks[0].id in live then [ks[0]] + Living(ks[1..], live)
    else Living(ks[1..], live)
  }

  /** The keys of a forest that are there, each after the keys under it. */
  function PostOrder(ks: seq<Key>, live: set<nat>): seq<Key> {
    if ks == [] then []
    else if ks[0].id in live then
      PostOrder(ks[0].children, live) + [ks[0]] + PostOrder(ks[1..], live)
    else PostOrder(ks[1..], live)
  }

  function IdsOf(ks: seq<Key>): (ids: set<nat>)
    ensures forall k <- ks :: k.id in ids
  {
    set k | k in ks :: k.id
  }

  // ---- The order ----

  lemma {:induction false} PostOrderInForest(ks: seq<Key>, live: set<nat>)
    ensures IdsOf(PostOrder(ks, live)) <= Ids(ks) * live
  {
    if ks != [] {
      PostOrderInForest(ks[0].children, live);
      PostOrderInForest(ks[1..], live);
    }
  }

  /** The post-order invariant: by the time a key is reached, all its children that are there
      have been. */
  lemma {:induction false} ChildrenComeFirst(ks: seq<Key>, live: set<nat>, i: nat, c: Key)
    requires i < |PostOrder(ks, live)|
    requires c in PostOrder(ks, live)[i].children && c.id in live
    ensures c in PostOrder(ks, live)[..i]
  {
    var post := PostOrder(ks, live);
    if ks[0].id !in live {
      ChildrenComeFirst(ks[1..], live, i, c);
    } else {
      var under, rest := PostOrder(ks[0].children, live), PostOrder(ks[1..], live);
      assert post == under + [ks[0]] + rest;
      if i < |under| {
        ChildrenComeFirst(ks[0].children, live, i, c);
        assert post[..i] == under[..i];
      } else if i == |under| {
        LivingAreReached(ks[0].children, live, c);
        assert post[..i] == under;
      } else {
        var j := i - |under| - 1;
        ChildrenComeFirst(ks[1..], live, j, c);
        assert post[..i] == under + [ks[0]] + rest[..j];
      }
    }
  }

  lemma {:induction false} LivingAreReached(ks: seq<Key>, live: set<nat>, c: Key)
    requires c in ks && c.id in live
    ensures c in PostOrder(ks, live)
  {
    if c != ks[0] {
      LivingAreReached(ks[1..], live, c);
    }
  }

  predicate NoRepeats(ks: seq<Key>) {
    forall i, j :: 0 <= i < j < |ks| ==> ks[i].id != ks[j].id
  }

  /** Every key is reached once. */
  lemma {:induction false} PostOrderNoRepeats(ks: seq<Key>, live: set<nat>)
    requires Distinct(ks)
    ensures NoRepeats(PostOrder(ks, live))
  {
    if ks != [] {
      PostOrderNoRepeats(ks[0].children, live);
      PostOrderNoRepeats(ks[1..], live);
      PostOrderInForest(ks[0].children, live);
      PostOrderInForest(ks[1..], live);
      var under, rest := PostOrder(ks[0].children, live), PostOrder(ks[1..], live);
      assert forall k <- under :: k.id in IdsOf(under);
      assert forall k <- rest :: k.id in IdsOf(rest);
    }
  }

  /** Every key that is there is reached, a key being there only with its parent. */
  lemma {:induction false} PostOrderCovers(ks: seq<Key>, live: set<nat>)
    requires Closed(ks, live)
    ensures IdsOf(PostOrder(ks, live)) == Ids(ks) * live
  {
    PostOrderInForest(ks, live);
    if ks != [] {
      PostOrderCovers(ks[0].children, live);
      PostOrderCovers(ks[1..], live);
      if ks[0].id in live {
        var under, rest := PostOrder(ks[0].children, live), PostOrder(ks[1..], live);
        assert PostOrder(ks, live) == under + [ks[0]] + rest;
        assert IdsOf(PostOrder(ks, live)) == IdsOf(under) + {ks[0].id} + IdsOf(rest);
      } else {
        NothingUnder(ks[0].children, live);
      }
    }
  }

  lemma {:induction false} NothingUnder(ks: seq<Key>, live: set<nat>)
    requires Closed(ks, live) && forall k <- ks :: k.id !in live
    ensures Ids(ks) !! live
  {
    if ks != [] {
      assert ks[0] in ks;
      NothingUnder(ks[0].children, live);
      NothingUnder(ks[1..], live);
    }
  }

  lemma {:induction false} ContainedIds(ks: seq<Key>, key: Key)
    requires Contains(ks, key)
    ensures {key.id} + Ids(key.children) <= Ids(ks)
  {
    if ks[0] != key {
      if Contains(ks[0].children, key) {
        ContainedIds(ks[0].children, key);
      } else {
        ContainedIds(ks[1..], key);
      }
    }
  }

  lemma {:induction false} ContainedIsDistinct(ks: seq<Key>, key: Key, live: set<nat>)
    requires Contains(ks, key) && Distinct(ks) && Closed(ks, live)
    ensures Distinct([key]) && Closed([key], live)
  {
    if ks[0] != key {
      if Contains(ks[0].children, key) {
        ContainedIsDistinct(ks[0].children, key, live);
      } else {
        ContainedIsDistinct(ks[1..], key, live);
      }
    }
  }

  lemma {:induction false} ContainsChild(ks: seq<Key>, key: Key, c: Key)
    requires Contains(ks, key) && c in key.children
    ensures Contains(ks, c)
  {
    if ks[0] == key {
      ContainsMember(key.children, c);
    } else if Contains(ks[0].children, key) {
      ContainsChild(ks[0].children, key, c);
    } else {
      ContainsChild(ks[1..], key, c);
    }
  }

  lemma {:induction false} ContainsMember(ks: seq<Key>, c: Key)
    requires c in ks
    ensures Contains(ks, c)
  {
    if ks[0] != c {
      ContainsMember(ks[1..], c);
    }
  }

  lemma {:induction false} PostOrderContained(tree: seq<Key>, ks: seq<Key>, live: set<nat>)
    requires forall k <- ks :: Contains(tree, k)
    ensures forall k <- PostOrder(ks, live) :: Contains(tree, k)
  {
    if ks != [] {
      assert ks[0] in ks;
      forall c | c in ks[0].children
        ensures Contains(tree, c)
      {
        ContainsChild(tree, ks[0], c);
      }
      PostOrderContained(tree, ks[0].children, live);
      PostOrderContained(tree, ks[1..], live);
    }
  }

  // ---- Deleting ----

  /** Deleting a key with no children there keeps the rest closed under parent. */
  lemma {:induction false} DeleteKeepsClosed(ks: seq<Key>, live: set<nat>, key: Key)
    requires Distinct(ks) && Closed(ks, live) && Contains(ks, key)
    requires Living(key.children, live) == []
    ensures Closed(ks, live - {key.id})
  {
    ContainedIds(ks, key);
    var first, rest := ks[0].children, ks[1..];
    if ks[0] == key {
      assert forall c <- key.children :: c.id !in live by {
        assert forall c <- key.children :: c !in Living(key.children, live);
      }
      OthersStayClosed(first, live, key.id);
      OthersStayClosed(rest, live, key.id);
    } else if Contains(first, key) {
      DeleteKeepsClosed(first, live, key);
      ContainedIds(first, key);
      OthersStayClosed(rest, live, key.id);
    } else {
      DeleteKeepsClosed(rest, live, key);
      ContainedIds(rest, key);
      OthersStayClosed(first, live, key.id);
    }
  }

  lemma {:induction false} OthersStayClosed(ks: seq<Key>, live: set<nat>, id: nat)
    requires Closed(ks, live) && id !in Ids(ks)
    ensures Closed(ks, live - {id})
  {
    if ks != [] {
      OthersStayClosed(ks[0].children, live, id);
      OthersStayClosed(ks[1..], live, id);
    }
  }

  /** When the keys before it in the order are gone, a key is there and has no children left. */
  lemma ReadyToDelete(ks: seq<Key>, live: set<nat>, i: nat)
    requires Distinct(ks) && i < |PostOrder(ks, live)|
    ensures var key, rest := PostOrder(ks, live)[i], live - IdsOf(PostOrder(ks, live)[..i]);
            key.id in rest && Living(key.children, rest) == []
  {
    var post := PostOrder(ks, live);
    var key, rest := post[i], live - IdsOf(post[..i]);
    PostOrderInForest(ks, live);
    PostOrderNoRepeats(ks, live);
    assert key in post;
    forall c | c in key.children
      ensures c.id !in rest
    {
      if c.id in live {
        ChildrenComeFirst(ks, live, i, c);
      }
    }
    NoneLiving(key.children, rest);
  }

  lemma {:induction false} NoneLiving(ks: seq<Key>, live: set<nat>)
    requires forall k <- ks :: k.id !in live
    ensures Living(ks, live) == []
  {
    if ks != [] {
      assert ks[0] in ks;
      NoneLiving(ks[1..], live);
    }
  }

  // ---- The store ----

  datatype Op = Opened(id: nat) | Deleted(id: nat)

  /** The registry: which keys are there, and what has been done to it. */
  class Store {
    const tree: seq<Key>
    /** Whether calls may fail for reasons of their own (access, memory, the source). */
    const mayFail: bool
    var live: set<nat>
    ghost var log: seq<Op>

    ghost predicate Valid()
      reads this
    {
      Distinct(tree) && Closed(tree, live)
    }

    constructor (tree: seq<Key>, live: set<nat>, mayFail: bool)
      requires Distinct(tree) && Closed(tree, live)
      ensures this.tree == tree && this.live == live && this.mayFail == mayFail && Valid()
    {
      this.tree := tree;
      this.live := live;
      this.mayFail := mayFail;
      this.log := [];
    }

    method Fault() returns (fault: Option<Errno>)
      ensures fault.Some? ==> mayFail && fault.value.Other?
    {
      fault := None;
      if mayFail {
        var hit: bool := *;
        if hit {
          var code: int := *;
          fault := Some(Errno.Other(code));
        }
      }
    }

    /** The child at a dense position, `None` past the end. */
    method EnumSubkey(key: Key, index: nat) returns (r: Result<Option<seq<byte>>, Errno>)
      ensures r.Err? ==> mayFail && r.error.Other?
      ensures r.Ok? ==>
                var children := Living(key.children, live);
                r.value == if index < |children| then Some(children[index].name) else None
    {
      var fault := Fault();
      if fault.Some? {
        return Err(fault.value);
      }
      var children := Living(key.children, live);
      r := Ok(if index < |children| then Some(children[index].name) else None);
    }

    /** Opens a child by name. A name with a NUL does not cross the interface. */
    method Open(parent: Key, name: seq<byte>) returns (r: Result<Key, Errno>)
      modifies this`log
      ensures r.Err? && r.error.Other? ==> mayFail
      ensures r.Err? && !r.error.Other? ==>
                r.error == if 0 in name then EINVAL else ENOENT
      ensures r.Err? && r.error == ENOENT ==>
                forall c <- Living(parent.children, live) :: c.name != name
      ensures r.Ok? ==> r.value in Living(parent.children, live) && r.value.name == name && 0 !in name
      ensures log == if r.Ok? then old(log) + [Opened(r.value.id)] else old(log)
    {
      if 0 in name {
        return Err(EINVAL);
      }
      var fault := Fault();
      if fault.Some? {
        return Err(fault.value);
      }
      var children := Living(parent.children, live);
      for i := 0 to |children|
        invariant forall j :: 0 <= j < i ==> children[j].name != name
        invariant log == old(log)
      {
        if children[i].name == name {
          log := log + [Opened(children[i].id)];
          return Ok(children[i]);
        }
      }
      return Err(ENOENT);
    }

    /** Deletes one key, which must have no children left. */
    method DeleteKey(key: Key) returns (r: Result<(), Errno>)
      requires Valid() && Contains(tree, key)
      modifies this`live, this`log
      ensures Valid()
      ensures r.Ok? ==> live == old(live) - {key.id} && log == old(log) + [Deleted(key.id)]
      ensures r.Ok? ==> key.id in old(live)
      ensures r.Err? ==> live == old(live) && log == old(log)
      ensures r == Err(ENOTEMPTY) ==> Living(key.children, live) != []
      ensures r == Err(ENOENT) ==> key.id !in live
      ensures r.Err? ==> r.error == ENOTEMPTY || r.error == ENOENT || (r.error.Other? && mayFail)
    {
      var fault := Fault();
      if fault.Some? {
        return Err(fault.value);
      }
      if Living(key.children, live) != [] {
        return Err(ENOTEMPTY);
      }
      if key.id !in live {
        return Err(ENOENT);
      }
      DeleteKeepsClosed(tree, live, key);
      live := live - {key.id};
      log := log + [Deleted(key.id)];
      return Ok(());
    }
  }

  // ---- Enumeration ----

  /** The iterator of `Key::subkeys`. */
  class Subkeys {
    const store: Store
    const key: Key
    var index: nat
    var done: bool

    constructor (store: Store, key: Key)
      ensures this.store == store && this.key == key && index == 0 && !done
    {
      this.store := store;
      this.key := key;
      this.index := 0;
      this.done := false;
    }

    /** The children from `index` on, one at a time; after the end or an error, nothing more. */
    method Next() returns (item: Option<Result<seq<byte>, Errno>>)
      modifies this`index, this`done
      ensures old(done) ==> item == None && done && index == old(index)
      ensures item == None && !old(done) ==>
                done && index == old(index) && |Living(key.children, store.live)| <= index
      ensures item.Some? && item.value.Err? ==>
                done && index == old(index) && store.mayFail && item.value.error.Other?
      ensures item.Some? && item.value.Ok? ==>
                && !done && index == old(index) + 1 <= |Living(key.children, store.live)|
                && item.value.value == Living(key.children, store.live)[old(index)].name
    {
      if done {
        return None;
      }
      var r := store.EnumSubkey(key, index);
      match r {
        case Ok(Some(name)) =>
          index := index + 1;
          return Some(Ok(name));
        case Ok(None) =>
          done := true;
          return None;
        case Err(e) =>
          done := true;
          return Some(Err(e));
      }
    }
  }

  function NamesOf(ks: seq<Key>): (names: seq<seq<byte>>)
    ensures |names| == |ks| && forall i :: 0 <= i < |ks| ==> names[i] == ks[i].name
  {
    seq(|ks|, i requires 0 <= i < |ks| => ks[i].name)
  }

  /** Collects an iterator's items, stopping at the first error: exactly the names of the
      children that are there, in order. */
  method CollectNames(store: Store, key: Key) returns (r: Result<seq<seq<byte>>, Errno>)
    ensures r.Ok? ==> r.value == NamesOf(Living(key.children, store.live))
    ensures r.Err? ==> store.mayFail && r.error.Other?
  {
    ghost var children := Living(key.children, store.live);
    var subkeys := new Subkeys(store, key);
    var names: seq<seq<byte>> := [];
    while true
      invariant subkeys.store == store && subkeys.key == key && !subkeys.done
      invariant subkeys.index == |names| <= |children|
      invariant names == NamesOf(children[..|names|])
      decreases |children| - |names|
    {
      var item := subkeys.Next();
      match item {
        case None =>
          assert children[..|names|] == children;
          return Ok(names);
        case Some(Err(e)) =>
          return Err(e);
        case Some(Ok(name)) =>
          names := names + [name];
      }
    }
  }

  // ---- gather and delete_tree ----

  /** A growable list of open keys, shared by the calls that fill it. */
  class KeyVec {
    var keys: seq<Key>

    constructor ()
      ensures keys == []
    {
      keys := [];
    }

    method Push(key: Key)
      modifies this
      ensures keys == old(keys) + [key]
    {
      keys := keys + [key];
    }
  }

  /** Every key can be opened by its name: it is UTF-8 and holds no NUL. */
  predicate AllOpenable(ks: seq<Key>) {
    forall i :: 0 <= i < |ks| ==> Valid(ks[i].name) && 0 !in ks[i].name
  }

  /** Between the two logs, keys were opened and nothing else was done. */
  ghost predicate OnlyOpens(log: seq<Op>, log': seq<Op>) {
    log <= log' && forall op <- log'[|log|..] :: op.Opened?
  }

  /** Between the two logs, exactly these keys were opened and nothing else was done. */
  ghost predicate OpensExactly(log: seq<Op>, log': seq<Op>, keys: seq<Key>) {
    OnlyOpens(log, log') && (set op | op in log'[|log|..] :: op.id) == IdsOf(keys)
  }

  lemma OnlyOpensBoth(a: seq<Op>, b: seq<Op>, c: seq<Op>)
    requires OnlyOpens(a, b) && OnlyOpens(b, c)
    ensures OnlyOpens(a, c)
    ensures c[|a|..] == b[|a|..] + c[|b|..]
  {
    assert c == b + c[|b|..];
  }

  lemma OpensBoth(a: seq<Op>, b: seq<Op>, c: seq<Op>, first: seq<Key>, second: seq<Key>)
    requires OpensExactly(a, b, first) && OpensExactly(b, c, second)
    ensures OpensExactly(a, c, first + second)
  {
    OnlyOpensBoth(a, b, c);
    assert IdsOf(first + second) == IdsOf(first) + IdsOf(second);
  }

  lemma OnlyOpensOneMore(log: seq<Op>, id: nat, log': seq<Op>)
    requires OnlyOpens(log + [Opened(id)], log')
    ensures OnlyOpens(log, log')
  {
    var one := log + [Opened(id)];
    assert one[|log|..] == [Opened(id)];
    OnlyOpensBoth(log, one, log');
  }

  lemma OpensOneMore(log: seq<Op>, key: Key, log': seq<Op>, under: seq<Key>)
    requires OpensExactly(log + [Opened(key.id)], log', under)
    ensures OpensExactly(log, log', under + [key])
  {
    var one := log + [Opened(key.id)];
    assert one[|log|..] == [Opened(key.id)];
    assert (set op | op in one[|log|..] :: op.id) == {key.id};
    OpensBoth(log, one, log', [key], under);
    assert IdsOf(under + [key]) == IdsOf([key] + under);
  }

  lemma {:induction false} PostOrderAppend(a: seq<Key>, b: seq<Key>, live: set<nat>)
    ensures PostOrder(a + b, live) == PostOrder(a, live) + PostOrder(b, live)
  {
    if a == [] {
      assert a + b == b;
    } else {
      assert (a + b)[0] == a[0] && (a + b)[1..] == a[1..] + b;
      PostOrderAppend(a[1..], b, live);
    }
  }

  lemma {:induction false} PostOrderOfLiving(ks: seq<Key>, live: set<nat>)
    ensures PostOrder(Living(ks, live), live) == PostOrder(ks, live)
  {
    if ks != [] {
      PostOrderOfLiving(ks[1..], live);
      if ks[0].id in live {
        assert Living(ks, live)[1..] == Living(ks[1..], live);
      }
    }
  }

  lemma {:induction false} DistinctNames(ks: seq<Key>, a: Key, b: Key)
    requires Distinct(ks) && a in ks && b in ks && a.name == b.name
    ensures a == b
  {
    if a != ks[0] && b != ks[0] {
      DistinctNames(ks[1..], a, b);
    }
  }

  lemma AllOpenableBoth(a: seq<Key>, b: seq<Key>)
    ensures AllOpenable(a + b) <==> AllOpenable(a) && AllOpenable(b)
  {
    assert forall i :: 0 <= i < |a| ==> (a + b)[i] == a[i];
    assert forall i :: 0 <= i < |b| ==> (a + b)[|a| + i] == b[i];
  }

  lemma AllOpenableAfter(ks: seq<Key>, k: Key)
    ensures AllOpenable(ks + [k]) <==> AllOpenable(ks) && Valid(k.name) && 0 !in k.name
  {
    AllOpenableBoth(ks, [k]);
    assert AllOpenable([k]) <==> Valid([k][0].name) && 0 !in [k][0].name;
  }

  /** A child that cannot be gathered is one the whole order cannot be gathered with. */
  lemma NotAllOpenable(children: seq<Key>, i: nat, live: set<nat>)
    requires i < |children| && children[i].id in live
    requires !AllOpenable(PostOrder(children[i].children, live) + [children[i]])
    ensures !AllOpenable(PostOrder(children, live))
  {
    GatherStep(children, i, live);
    AllOpenableBoth(PostOrder(children[..i], live), PostOrder(children[i].children, live) + [children[i]]);
    assert children == children[..i + 1] + children[i + 1..];
    PostOrderAppend(children[..i + 1], children[i + 1..], live);
    AllOpenableBoth(PostOrder(children[..i + 1], live), PostOrder(children[i + 1..], live));
  }

  /** The step of `gather`'s loop on the order collected so far. */
  lemma GatherStep(children: seq<Key>, i: nat, live: set<nat>)
    requires i < |children| && children[i].id in live
    ensures PostOrder(children[..i + 1], live)
         == PostOrder(children[..i], live) + (PostOrder(children[i].children, live) + [children[i]])
  {
    assert children[..i + 1] == children[..i] + [children[i]];
    PostOrderAppend(children[..i], [children[i]], live);
    assert PostOrder([children[i]], live)
        == PostOrder(children[i].children, live) + [children[i]] + [];
  }

  /** These keys, openable all of them, were opened and appended, and nothing else was done. */
  ghost predicate Gathered(before: seq<Key>, after: seq<Key>, log: seq<Op>, log': seq<Op>, keys: seq<Key>) {
    after == before + keys && OpensExactly(log, log', keys) && AllOpenable(keys)
  }

  lemma GatheredMore(k0: seq<Key>, k1: seq<Key>, k2: seq<Key>, l0: seq<Op>, l1: seq<Op>, l2: seq<Op>,
                     done: seq<Key>, more: seq<Key>)
    requires Gathered(k0, k1, l0, l1, done) && Gathered(k1, k2, l1, l2, more)
    ensures Gathered(k0, k2, l0, l2, done + more)
  {
    OpensBoth(l0, l1, l2, done, more);
    AllOpenableBoth(done, more);
    Associative(k0, done, more);
  }

  method Gather(store: Store, self: Key, under: KeyVec) returns (r: Result<(), Errno>)
    requires store.Valid() && Contains(store.tree, self)
    modifies under, store`log
    ensures r.Ok? ==> Gathered(old(under.keys), under.keys, old(store.log), store.log,
                               PostOrder(self.children, store.live))
    ensures r.Err? ==>
              || (r.error == EINVAL && !AllOpenable(PostOrder(self.children, store.live)))
              || (r.error.Other? && store.mayFail)
    ensures OnlyOpens(old(store.log), store.log)
    decreases self, 1
  {
    var names :- CollectNames(store, self);
    ghost var children := Living(self.children, store.live);
    ContainedIsDistinct(store.tree, self, store.live);
    PostOrderOfLiving(self.children, store.live);
    for i := 0 to |names|
      invariant Gathered(old(under.keys), under.keys, old(store.log), store.log,
                         PostOrder(children[..i], store.live))
    {
      assert children[i] in self.children;
      ghost var keys, log := under.keys, store.log;
      var one := GatherChild(store, self, names[i], under, children[i]);
      if one.Err? {
        OnlyOpensBoth(old(store.log), log, store.log);
        if one.error == EINVAL {
          NotAllOpenable(children, i, store.live);
        }
        return Err(one.error);
      }
      GatherStep(children, i, store.live);
      GatheredMore(old(under.keys), keys, under.keys, old(store.log), log, store.log,
                   PostOrder(children[..i], store.live), PostOrder(children[i].children, store.live) + [children[i]]);
    }
    assert children[..|names|] == children;
    return Ok(());
  }

  /** One turn of `gather`'s loop: opens a child, gathers under it, then keeps it. */
  method GatherChild(store: Store, self: Key, name: seq<byte>, under: KeyVec, ghost child: Key)
    returns (r: Result<(), Errno>)
    requires store.Valid() && Contains(store.tree, self) && Distinct(self.children)
    requires child in Living(self.children, store.live) && child.name == name
    modifies under, store`log
    ensures r.Ok? ==> Gathered(old(under.keys), under.keys, old(store.log), store.log,
                               PostOrder(child.children, store.live) + [child])
    ensures r.Err? ==>
              || (r.error == EINVAL && !AllOpenable(PostOrder(child.children, store.live) + [child]))
              || (r.error.Other? && store.mayFail)
    ensures OnlyOpens(old(store.log), store.log)
    decreases self, 0
  {
    AllOpenableAfter(PostOrder(child.children, store.live), child);
    if !Valid(name) {
      return Err(EINVAL);
    }
    var found :- OpenNamed(store, self, name, child);
    ghost var log := store.log;
    ContainsChild(store.tree, self, found);
    var deeper := Gather(store, found, under);
    OnlyOpensOneMore(old(store.log), child.id, store.log);
    if deeper.Err? {
      return Err(deeper.error);
    }
    OpensOneMore(old(store.log), child, store.log, PostOrder(child.children, store.live));
    under.Push(found);
    return Ok(());
  }

  /** Opening a child by its own name finds that child: siblings' names differ. */
  method OpenNamed(store: Store, parent: Key, name: seq<byte>, ghost child: Key)
    returns (r: Result<Key, Errno>)
    requires Distinct(parent.children)
    requires child in Living(parent.children, store.live) && child.name == name
    modifies store`log
    ensures r.Ok? ==> r.value == child && store.log == old(store.log) + [Opened(child.id)] && 0 !in name
    ensures r.Err? ==> store.log == old(store.log)
    ensures r.Err? ==> (r.error == EINVAL && 0 in name) || (r.error.Other? && store.mayFail)
  {
    r := store.Open(parent, name);
    if r.Ok? {
      DistinctNames(parent.children, r.value, child);
    }
  }

  // ---- delete_tree ----

  function Deletions(ks: seq<Key>): (ops: seq<Op>)
    ensures |ops| == |ks| && forall i :: 0 <= i < |ks| ==> ops[i] == Deleted(ks[i].id)
  {
    seq(|ks|, i requires 0 <= i < |ks| => Deleted(ks[i].id))
  }

  /** What one run did: opened some keys, then deleted the first `k` in the order. */
  ghost predicate DeletedFirst(store: Store, live: set<nat>, log: seq<Op>, opens: seq<Op>,
                               post: seq<Key>, k: nat)
    reads store
  {
    && k <= |post|
    && store.live == live - IdsOf(post[..k])
    && OnlyOpens(log, log + opens)
    && store.log == log + opens + Deletions(post[..k])
  }

  lemma DeletedOneMore(live: set<nat>, post: seq<Key>, i: nat)
    requires i < |post|
    ensures live - IdsOf(post[..i]) - {post[i].id} == live - IdsOf(post[..i + 1])
    ensures Deletions(post[..i]) + [Deleted(post[i].id)] == Deletions(post[..i + 1])
  {
    assert post[..i + 1] == post[..i] + [post[i]];
    assert IdsOf(post[..i + 1]) == IdsOf(post[..i]) + {post[i].id};
  }

  /** Deletes the next key of the order: it is there, and by now has no children. */
  method DeleteNext(store: Store, key: Key, ghost self: Key, ghost live: set<nat>,
                    ghost log: seq<Op>, ghost opens: seq<Op>, ghost i: nat)
    returns (r: Result<(), Errno>)
    requires store.Valid() && Contains(store.tree, self) && Closed([self], live) && Distinct([self])
    requires i < |PostOrder([self], live)| && key == PostOrder([self], live)[i]
    requires DeletedFirst(store, live, log, opens, PostOrder([self], live), i)
    modifies store`live, store`log
    ensures store.Valid()
    ensures DeletedFirst(store, live, log, opens, PostOrder([self], live), if r.Ok? then i + 1 else i)
    ensures r.Err? ==> r.error.Other? && store.mayFail
  {
    ghost var post := PostOrder([self], live);
    ReadyToDelete([self], live, i);
    PostOrderContained(store.tree, [self], live);
    assert key in post;
    r := store.DeleteKey(key);
    DeletedOneMore(live, post, i);
  }

  lemma {:induction false} DistinctCount(ks: seq<Key>)
    requires NoRepeats(ks)
    ensures |IdsOf(ks)| == |ks|
  {
    if ks != [] {
      var n := |ks| - 1;
      DistinctCount(ks[..n]);
      assert ks == ks[..n] + [ks[n]];
      assert IdsOf(ks) == IdsOf(ks[..n]) + {ks[n].id};
      assert ks[n].id !in IdsOf(ks[..n]);
    }
  }

  /** The whole order is the whole subtree. */
  lemma WholeSubtree(self: Key, live: set<nat>)
    requires Distinct([self]) && Closed([self], live)
    ensures live - IdsOf(PostOrder([self], live)) == live - Ids([self])
    ensures |PostOrder([self], live)| == |Ids([self]) * live|
  {
    PostOrderCovers([self], live);
    PostOrderNoRepeats([self], live);
    DistinctCount(PostOrder([self], live));
  }

  lemma SelfComesLast(self: Key, live: set<nat>)
    requires Distinct([self]) && Closed([self], live)
    ensures self.id in live ==> PostOrder([self], live) == PostOrder(self.children, live) + [self]
    ensures self.id !in live ==> PostOrder([self], live) == [] && PostOrder(self.children, live) == []
    ensures self.id !in live ==> Living(self.children, live) == []
  {
    if self.id !in live {
      NoneLiving(self.children, live);
      PostOrderOfLiving(self.children, live);
    }
  }

  /** The deletion run over the gathered keys: those under `self`, in the order. */
  method DeleteUnder(store: Store, keys: seq<Key>, ghost self: Key, ghost live: set<nat>,
                     ghost log: seq<Op>, ghost opens: seq<Op>)
    returns (r: Result<(), Errno>, ghost k: nat)
    requires store.Valid() && Contains(store.tree, self) && Closed([self], live) && Distinct([self])
    requires keys == PostOrder(self.children, live) && keys <= PostOrder([self], live)
    requires DeletedFirst(store, live, log, opens, PostOrder([self], live), 0)
    modifies store`live, store`log
    ensures store.Valid()
    ensures DeletedFirst(store, live, log, opens, PostOrder([self], live), k)
    ensures r.Ok? ==> k == |keys|
    ensures r.Err? ==> r.error.Other? && store.mayFail && k < |keys|
  {
    k := 0;
    for i := 0 to |keys|
      invariant store.Valid() && k == i
      invariant DeletedFirst(store, live, log, opens, PostOrder([self], live), i)
    {
      var deleted := DeleteNext(store, keys[i], self, live, log, opens, i);
      if deleted.Err? {
        return Err(deleted.error), k;
      }
      k := k + 1;
    }
    return Ok(()), k;
  }

  /** Deletes `self` itself, once nothing under it is left. */
  method DeleteSelf(store: Store, self: Key, ghost live: set<nat>, ghost log: seq<Op>,
                    ghost opens: seq<Op>, ghost k: nat)
    returns (r: Result<(), Errno>)
    requires store.Valid() && Contains(store.tree, self) && Closed([self], live) && Distinct([self])
    requires k == |PostOrder(self.children, live)|
    requires DeletedFirst(store, live, log, opens, PostOrder([self], live), k)
    modifies store`live, store`log
    ensures store.Valid()
    ensures DeletedFirst(store, live, log, opens, PostOrder([self], live), if r.Ok? then k + 1 else k)
    ensures r.Ok? ==> self.id in live
    ensures r.Err? ==> (r.error.Other? && store.mayFail) || (r.error == ENOENT && self.id !in live)
  {
    SelfComesLast(self, live);
    if self.id in live {
      ReadyToDelete([self], live, k);
      DeletedOneMore(live, PostOrder([self], live), k);
    } else {
      assert live - IdsOf(PostOrder([self], live)[..0]) == live;
    }
    r := store.DeleteKey(self);
  }

  /** The deletion run over all of it. */
  method DeleteGathered(store: Store, keys: seq<Key>, self: Key, ghost live: set<nat>, ghost log: seq<Op>,
                        ghost opens: seq<Op>)
    returns (r: Result<nat, Errno>, ghost k: nat)
    requires store.Valid() && Contains(store.tree, self) && Closed([self], live) && Distinct([self])
    requires keys == PostOrder(self.children, live)
    requires DeletedFirst(store, live, log, opens, PostOrder([self], live), 0)
    modifies store`live, store`log
    ensures store.Valid()
    ensures DeletedFirst(store, live, log, opens, PostOrder([self], live), k)
    ensures r.Ok? ==> self.id in live && r.value == k == |PostOrder([self], live)|
    ensures r.Err? ==> (r.error.Other? && store.mayFail) || (r.error == ENOENT && self.id !in live)
    ensures r.Err? && self.id in live ==> k < |PostOrder([self], live)|
  {
    SelfComesLast(self, live);
    var run;
    run, k := DeleteUnder(store, keys, self, live, log, opens);
    if run.Err? {
      return Err(run.error), k;
    }
    var deleted := DeleteSelf(store, self, live, log, opens, k);
    if deleted.Err? {
      return Err(deleted.error), k;
    }
    k := k + 1;
    return Ok(|keys| + 1), k;
  }

  method DeleteTree(store: Store, self: Key)
    returns (r: Result<nat, Errno>, ghost opens: seq<Op>, ghost k: nat)
    requires store.Valid() && Contains(store.tree, self)
    modifies store
    // However it ends, the keys gone are the first of the order and the rest is closed.
    ensures store.Valid()
    ensures DeletedFirst(store, old(store.live), old(store.log), opens,
                         PostOrder([self], old(store.live)), k)
    // Nothing is deleted before every key under this one is open.
    ensures k > 0 ==> OpensExactly(old(store.log), old(store.log) + opens,
                                   PostOrder(self.children, old(store.live)))
    // Success deletes the whole subtree and counts it; an error leaves some of it.
    ensures r.Ok? ==> self.id in old(store.live) && store.live == old(store.live) - Ids([self])
    ensures r.Ok? ==> r.value == |Ids([self]) * old(store.live)|
    ensures r.Err? && self.id in old(store.live) ==> k < |PostOrder([self], old(store.live))|
    // A key there that cannot be opened by its name keeps all of them.
    ensures !AllOpenable(PostOrder(self.children, old(store.live))) ==>
              r.Err? && store.live == old(store.live)
    // Only that, a key already gone or the store's own failures stop it.
    ensures r.Err? ==>
              || (r.error == EINVAL && !AllOpenable(PostOrder(self.children, old(store.live))))
              || (r.error == ENOENT && self.id !in old(store.live))
              || (r.error.Other? && store.mayFail)
  {
    ghost var live, log := store.live, store.log;
    ghost var post := PostOrder([self], live);
    opens, k := [], 0;
    var under := new KeyVec();
    var gathered := Gather(store, self, under);
    opens := store.log[|log|..];
    assert store.log == log + opens + Deletions(post[..0]);
    if gathered.Err? {
      return Err(gathered.error), opens, k;
    }
    ContainedIsDistinct(store.tree, self, live);
    r, k := DeleteGathered(store, under.keys, self, live, log, opens);
    if r.Ok? {
      assert post[..k] == post;
      WholeSubtree(self, live);
    }
  }
}
