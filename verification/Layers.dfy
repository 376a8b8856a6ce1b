/** Registry layers: `layers::create` as one transaction, `layers::read`, and the setters. */
module Layers {
  import opened Wrappers
  import opened Bytes
  import opened ValueData

  // ---- The registry as keys and values ----

  datatype Value = Value(ty: u32, data: seq<byte>)

  /** Committed or pending contents: by folded path, each key's values by folded name. */
  type Contents = map<string, map<string, Value>>

  function FoldChar(c: char): char {
    if 'A' <= c <= 'Z' then (c as int + 32) as char else c
  }

  /** Names are compared without regard to case (ASCII here). */
  function Fold(s: string): (f: string)
    ensures |f| == |s|
    ensures forall i :: 0 <= i < |s| ==> f[i] == FoldChar(s[i])
  {
    seq(|s|, i requires 0 <= i < |s| => FoldChar(s[i]))
  }

  function Child(path: string, name: string): string {
    path + "\\" + Fold(name)
  }

  const SYSTEM := "machine\\system"
  const REGISTRY := "machine\\system\\registry"
  const LAYERS := "machine\\system\\registry\\layers"
  const BASE := "base"
  const PRECEDENCE := "precedence"
  const ENABLED := "enabled"
  const OWNER := "owner"

  predicate IsBase(name: string) {
    Fold(name) == BASE
  }

  predicate IsLayerName(name: string) {
    !IsBase(name) && name != "" && '\\' !in name && '/' !in name
  }

  /** The base layer's name in any mixture of cases. */
  predicate SpellsBase(name: string) {
    && |name| == 4
    && (name[0] == 'b' || name[0] == 'B') && (name[1] == 'a' || name[1] == 'A')
    && (name[2] == 's' || name[2] == 'S') && (name[3] == 'e' || name[3] == 'E')
  }

  lemma BaseIsSpelled(name: string)
    ensures IsBase(name) <==> SpellsBase(name)
  {
    if SpellsBase(name) {
      assert Fold(name) == [FoldChar(name[0]), FoldChar(name[1]), FoldChar(name[2]), FoldChar(name[3])];
    }
    if IsBase(name) {
      assert forall i :: 0 <= i < 4 ==> FoldChar(name[i]) == BASE[i];
    }
  }

  /** The same letters, whatever their case, and otherwise the same characters. */
  predicate SameButForCase(a: string, b: string) {
    && |a| == |b|
    && forall i :: 0 <= i < |a| ==>
         || a[i] == b[i]
         || ('A' <= a[i] <= 'Z' && b[i] as int == a[i] as int + 32)
         || ('A' <= b[i] <= 'Z' && a[i] as int == b[i] as int + 32)
  }

  /** Two names are the same layer's exactly when they differ in case at most. */
  lemma SameKeyExactly(a: string, b: string)
    ensures Child(LAYERS, a) == Child(LAYERS, b) <==> SameButForCase(a, b)
  {
    if Child(LAYERS, a) == Child(LAYERS, b) {
      assert Child(LAYERS, a)[|LAYERS| + 1..] == Fold(a) && Child(LAYERS, b)[|LAYERS| + 1..] == Fold(b);
      assert forall i :: 0 <= i < |a| ==> FoldChar(a[i]) == Fold(a)[i] && FoldChar(b[i]) == Fold(b)[i];
    }
    if SameButForCase(a, b) {
      assert Fold(a) == Fold(b);
    }
  }

  datatype Disposition = CreatedNew | OpenedExisting

  /** The registry with one client: committed contents, and calls that may fail at any point
      for reasons of their own. */
  class Registry {
    var committed: Contents
    const mayFail: bool

    constructor (contents: Contents, mayFail: bool)
      ensures committed == contents && this.mayFail == mayFail
    {
      committed := contents;
      this.mayFail := mayFail;
    }

    method Fault() returns (fault: Option<Errno>)
      ensures fault.Some? ==> mayFail && fault.value.Other?
    {
      fault := None;
      var hit: bool := *;
      if mayFail && hit {
        var code: int := *;
        fault := Some(Errno.Other(code));
      }
    }

    /** Opens a key outside any transaction. A NUL does not cross the interface. */
    method Open(path: string) returns (r: Result<string, Errno>)
      ensures r.Ok? ==> r.value == path && path in committed && '\0' !in path
      ensures r.Err? ==>
                || (r.error == EINVAL && '\0' in path)
                || (r.error == ENOENT && path !in committed)
                || (r.error.Other? && mayFail)
    {
      if '\0' in path {
        return Err(EINVAL);
      }
      var fault := Fault();
      if fault.Some? {
        return Err(fault.value);
      }
      return if path in committed then Ok(path) else Err(ENOENT);
    }

    method QueryValue(path: string, name: string) returns (r: Result<Value, Errno>)
      ensures r.Ok? ==> path in committed && name in committed[path] && r.value == committed[path][name]
      ensures r.Err? ==>
                || (r.error == ENOENT && !(path in committed && name in committed[path]))
                || (r.error.Other? && mayFail)
    {
      var fault := Fault();
      if fault.Some? {
        return Err(fault.value);
      }
      return if path in committed && name in committed[path] then Ok(committed[path][name])
             else Err(ENOENT);
    }

    method SetValue(path: string, name: string, value: Value) returns (r: Result<(), Errno>)
      requires path in committed
      modifies this`committed
      ensures r.Ok? ==> committed == old(committed)[path := old(committed)[path][name := value]]
      ensures r.Err? ==> committed == old(committed) && r.error.Other? && mayFail
    {
      var fault := Fault();
      if fault.Some? {
        return Err(fault.value);
      }
      committed := committed[path := committed[path][name := value]];
      return Ok(());
    }
  }

  datatype TxnState = Active | Committed | Aborted

  /** A transaction: what it has written is seen through it alone until it is committed.
      Dropping it without committing aborts it. */
  class Transaction {
    const registry: Registry
    var view: Contents
    var state: TxnState

    constructor Begin(registry: Registry)
      ensures this.registry == registry && view == registry.committed && state == Active
    {
      this.registry := registry;
      this.view := registry.committed;
      this.state := Active;
    }

    /** A key under `parent`, made if it is not there. A NUL does not cross the interface. */
    method CreateKey(parent: string, name: string) returns (r: Result<(string, Disposition), Errno>)
      requires state == Active
      modifies this`view
      ensures r.Ok? ==>
                && r.value.0 == Child(parent, name) && parent in old(view) && '\0' !in name
                && r.value.1 == (if r.value.0 in old(view) then OpenedExisting else CreatedNew)
                && view == (if r.value.0 in old(view) then old(view) else old(view)[r.value.0 := map[]])
      ensures r.Err? ==> view == old(view)
      ensures r.Err? ==>
                || (r.error == EINVAL && '\0' in name)
                || (r.error == ENOENT && parent !in view)
                || (r.error.Other? && registry.mayFail)
    {
      if '\0' in name {
        return Err(EINVAL);
      }
      var fault := registry.Fault();
      if fault.Some? {
        return Err(fault.value);
      }
      if parent !in view {
        return Err(ENOENT);
      }
      var path := Child(parent, name);
      if path in view {
        return Ok((path, OpenedExisting));
      }
      view := view[path := map[]];
      return Ok((path, CreatedNew));
    }

    method SetValue(path: string, name: string, value: Value) returns (r: Result<(), Errno>)
      requires state == Active && path in view
      modifies this`view
      ensures r.Ok? ==> view == old(view)[path := old(view)[path][name := value]]
      ensures r.Err? ==> view == old(view) && r.error.Other? && registry.mayFail
    {
      var fault := registry.Fault();
      if fault.Some? {
        return Err(fault.value);
      }
      view := view[path := view[path][name := value]];
      return Ok(());
    }

    /** Consumes the transaction: a commit that fails, even one that could be tried again,
        closes it and so aborts it. */
    method Commit() returns (r: Result<(), Errno>)
      requires state == Active
      modifies this`state, registry`committed
      ensures r.Ok? ==> state == Committed && registry.committed == view
      ensures r.Err? ==> state == Aborted && registry.committed == old(registry.committed)
      ensures r.Err? ==> r.error.Other? && registry.mayFail
    {
      var fault := registry.Fault();
      if fault.Some? {
        state := Aborted;
        return Err(fault.value);
      }
      state := Committed;
      registry.committed := view;
      return Ok(());
    }

    method Drop()
      modifies this`state
      ensures state == if old(state) == Active then Aborted else old(state)
    {
      if state == Active {
        state := Aborted;
      }
    }
  }

  // ---- create ----

  function DwordValue(n: u32): Value {
    Value(REG_DWORD, ToLe(n, 4))
  }

  function LayerValues(precedence: u32, enabled: bool): map<string, Value> {
    map[PRECEDENCE := DwordValue(precedence), ENABLED := DwordValue(if enabled then 1 else 0)]
  }

  function WithKey(c: Contents, path: string): Contents {
    if path in c then c else c[path := map[]]
  }

  /** The contents with the keys above the layers made where they are missing. */
  function WithLayersKey(c: Contents): Contents {
    if LAYERS in c then c else WithKey(WithKey(c, REGISTRY), LAYERS)
  }

  /** The contents with one layer more. */
  function WithLayer(c: Contents, name: string, precedence: u32, enabled: bool): Contents {
    WithLayersKey(c)[Child(LAYERS, name) := LayerValues(precedence, enabled)]
  }

  /** What a successful `create` needs of the contents: somewhere to make the keys, and no
      layer of that name. */
  predicate HasRoom(c: Contents, name: string) {
    (LAYERS in c || SYSTEM in c) && Child(LAYERS, name) !in c
  }

  /** The error is one the contents or the name account for, or a failure of the calls' own. */
  predicate Explained(c: Contents, name: string, e: Errno, mayFail: bool) {
    || (e == EINVAL && '\0' in name)
    || (e == EEXIST && Child(LAYERS, name) in c)
    || (e == ENOENT && LAYERS !in c && SYSTEM !in c)
    || (e.Other? && mayFail)
  }

  /** Opens the key above the layers, making it and the one above it inside the transaction if
      they are missing. */
  method OpenLayers(txn: Transaction) returns (r: Result<string, Errno>)
    requires txn.state == Active && txn.view == txn.registry.committed
    modifies txn`view
    ensures r.Ok? ==> r.value == LAYERS && LAYERS in txn.view && txn.view == WithLayersKey(old(txn.view))
    ensures r.Ok? ==> LAYERS in old(txn.view) || SYSTEM in old(txn.view)
    ensures r.Err? ==>
              || (r.error == ENOENT && LAYERS !in old(txn.view) && SYSTEM !in old(txn.view))
              || (r.error.Other? && txn.registry.mayFail)
  {
    r := txn.registry.Open(LAYERS);
    if r != Err(ENOENT) {
      return;
    }
    KeysAbove();
    var key :- txn.registry.Open(SYSTEM);
    var rest := ["Registry", "Layers"];
    for i := 0 to |rest|
      invariant key == [SYSTEM, REGISTRY, LAYERS][i] && key in txn.view
      invariant txn.view == if i == 0 then old(txn.view)
                            else if i == 1 then WithKey(old(txn.view), REGISTRY)
                            else WithLayersKey(old(txn.view))
    {
      var made :- txn.CreateKey(key, rest[i]);
      key := made.0;
    }
    return Ok(key);
  }

  lemma KeysAbove()
    ensures Child(SYSTEM, "Registry") == REGISTRY && Child(REGISTRY, "Layers") == LAYERS
    ensures '\0' !in "Registry" && '\0' !in "Layers"
  {
    assert Fold("Registry") == "registry";
    assert Fold("Layers") == "layers";
  }

  lemma ChildIsNew(c: Contents, name: string)
    ensures Child(LAYERS, name) != LAYERS && Child(LAYERS, name) != REGISTRY
    ensures Child(LAYERS, name) in WithLayersKey(c) <==> Child(LAYERS, name) in c
  {
    assert |Child(LAYERS, name)| > |LAYERS| > |REGISTRY|;
  }

  /** The body of `create` up to and including the commit. */
  method CreateIn(txn: Transaction, name: string, precedence: u32, enabled: bool)
    returns (r: Result<(), Errno>)
    requires txn.state == Active && txn.view == txn.registry.committed
    modifies txn, txn.registry`committed
    ensures r.Err? ==> txn.registry.committed == old(txn.registry.committed)
    ensures r.Ok? ==>
              && txn.registry.committed == WithLayer(old(txn.registry.committed), name, precedence, enabled)
              && HasRoom(old(txn.registry.committed), name)
    ensures r.Err? ==> Explained(old(txn.registry.committed), name, r.error, txn.registry.mayFail)
  {
    ghost var c := txn.registry.committed;
    ChildIsNew(c, name);
    var layers :- OpenLayers(txn);
    var child :- txn.CreateKey(layers, name);
    var (key, made) := child;
    if made == OpenedExisting {
      return Err(EEXIST);
    }
    var p :- txn.SetValue(key, PRECEDENCE, DwordValue(precedence));
    var e :- txn.SetValue(key, ENABLED, DwordValue(if enabled then 1 else 0));
    assert txn.view[key] == LayerValues(precedence, enabled);
    assert txn.view == WithLayer(c, name, precedence, enabled);
    r := txn.Commit();
  }

  method Create(registry: Registry, name: string, precedence: u32, enabled: bool)
    returns (r: Result<(), Errno>)
    modifies registry`committed
    // All or nothing, wherever it fails.
    ensures r.Err? ==> registry.committed == old(registry.committed)
    ensures r.Ok? ==> registry.committed == WithLayer(old(registry.committed), name, precedence, enabled)
    ensures r.Ok? ==> IsLayerName(name) && HasRoom(old(registry.committed), name)
    // Which errors, and why.
    ensures !IsLayerName(name) ==> r == Err(EINVAL)
    ensures name == "" || '\\' in name || '/' in name || SpellsBase(name) ==> r == Err(EINVAL)
    ensures r.Err? && IsLayerName(name) ==>
              Explained(old(registry.committed), name, r.error, registry.mayFail)
    // Nothing but that stops it.
    ensures r.Ok? || registry.mayFail || !IsLayerName(name) || '\0' in name
            || !HasRoom(old(registry.committed), name)
  {
    BaseIsSpelled(name);
    if IsBase(name) || name == "" || '\\' in name || '/' in name {
      return Err(EINVAL);
    }
    var fault := registry.Fault();
    if fault.Some? {
      return Err(fault.value);
    }
    var txn := new Transaction.Begin(registry);
    r := CreateIn(txn, name, precedence, enabled);
    txn.Drop();
  }

  // ---- read ----

  /** A layer as its key says; `owner` is the SID's bytes. */
  datatype Layer = Layer(
    name: string,
    precedence: u32,
    enabled: bool,
    owner: Option<seq<byte>>,
    malformed: bool)

  /** A value of a layer's key: absent, as meant, or malformed. */
  datatype Field<+T> = Absent | Is(value: T) | Malformed

  function Lookup(values: map<string, Value>, name: string): Option<Data> {
    if name in values then Some(Decode(values[name].ty, values[name].data)) else None
  }

  function PrecedenceOf(data: Option<Data>): Field<u32> {
    match data
    case None => Absent
    case Some(Dword(n)) => Is(n)
    case Some(_) => Malformed
  }

  function EnabledOf(data: Option<Data>): Field<bool> {
    match data
    case None => Absent
    case Some(Dword(n)) => if n <= 1 then Is(n == 1) else Malformed
    case Some(_) => Malformed
  }

  function OwnerOf(data: Option<Data>, isSid: seq<byte> -> bool): Field<seq<byte>> {
    match data
    case None => Absent
    case Some(Binary(b)) => if isSid(b) then Is(b) else Malformed
    case Some(_) => Malformed
  }

  /** `value` is what a field shows, where `default` stands for a missing or malformed one. */
  predicate Shows<T(==)>(field: Field<T>, value: T, default: T) {
    value == if field.Is? then field.value else default
  }

  /** The layer three values describe: a missing or malformed one leaves its default. */
  function Assembled(name: string, p: Field<u32>, e: Field<bool>, o: Field<seq<byte>>): Layer {
    Layer(name,
          if p.Is? then p.value else 0,
          if e.Is? then e.value else true,
          if o.Is? then Some(o.value) else None,
          p.Malformed? || e.Malformed? || o.Malformed?)
  }

  function LayerOf(name: string, values: map<string, Value>, isSid: seq<byte> -> bool): Layer {
    Assembled(name, PrecedenceOf(Lookup(values, PRECEDENCE)), EnabledOf(Lookup(values, ENABLED)),
              OwnerOf(Lookup(values, OWNER), isSid))
  }

  /** What the bytes stored for a layer mean. */
  predicate IsDword(v: Value) {
    v.ty == REG_DWORD && |v.data| == 4
  }

  predicate IsSwitch(v: Value) {
    IsDword(v) && FromLe(v.data) <= 1
  }

  predicate IsOwner(v: Value, isSid: seq<byte> -> bool) {
    v.ty == REG_BINARY && isSid(v.data)
  }

  /** The layer shows each value that is there and well-formed; for one that is missing or
      malformed, precedence 0, enabled, and no owner; and it says whether one is malformed. */
  predicate Describes(layer: Layer, name: string, values: map<string, Value>, isSid: seq<byte> -> bool) {
    && layer.name == name
    && (PRECEDENCE in values && IsDword(values[PRECEDENCE]) ==>
          layer.precedence == FromLe(values[PRECEDENCE].data))
    && (PRECEDENCE !in values || !IsDword(values[PRECEDENCE]) ==> layer.precedence == 0)
    && (ENABLED in values && IsSwitch(values[ENABLED]) ==> layer.enabled == (FromLe(values[ENABLED].data) == 1))
    && (ENABLED !in values || !IsSwitch(values[ENABLED]) ==> layer.enabled)
    && (OWNER in values && IsOwner(values[OWNER], isSid) ==> layer.owner == Some(values[OWNER].data))
    && (OWNER !in values || !IsOwner(values[OWNER], isSid) ==> layer.owner == None)
    && (layer.malformed <==>
          || (PRECEDENCE in values && !IsDword(values[PRECEDENCE]))
          || (ENABLED in values && !IsSwitch(values[ENABLED]))
          || (OWNER in values && !IsOwner(values[OWNER], isSid)))
  }

  lemma DwordDecodes(v: Value)
    ensures Decode(v.ty, v.data).Dword? <==> IsDword(v)
    ensures IsDword(v) ==> Decode(v.ty, v.data) == Dword(FromLe(v.data))
  {
    DecodeIsCanonical(v.ty, v.data);
  }

  lemma BinaryDecodes(v: Value)
    ensures Decode(v.ty, v.data).Binary? <==> v.ty == REG_BINARY
    ensures v.ty == REG_BINARY ==> Decode(v.ty, v.data) == Binary(v.data)
  {
    DecodeIsCanonical(v.ty, v.data);
  }

  /** A layer is read exactly as the bytes of its key's values describe it. */
  lemma LayerReadExactly(layer: Layer, name: string, values: map<string, Value>, isSid: seq<byte> -> bool)
    ensures Describes(layer, name, values, isSid) <==> layer == LayerOf(name, values, isSid)
  {
    if PRECEDENCE in values {
      DwordDecodes(values[PRECEDENCE]);
    }
    if ENABLED in values {
      DwordDecodes(values[ENABLED]);
    }
    if OWNER in values {
      BinaryDecodes(values[OWNER]);
    }
  }

  method ReadValue(registry: Registry, path: string, name: string) returns (r: Result<Option<Data>, Errno>)
    requires path in registry.committed
    ensures r.Ok? ==> r.value == Lookup(registry.committed[path], name)
    ensures r.Err? ==> r.error.Other? && registry.mayFail
  {
    var value := registry.QueryValue(path, name);
    match value {
      case Ok(v) => r := Ok(Some(Decode(v.ty, v.data)));
      case Err(ENOENT) => r := Ok(None);
      case Err(e) => r := Err(e);
    }
  }

  method TakePrecedence(data: Option<Data>) returns (precedence: u32, malformed: bool)
    ensures Shows(PrecedenceOf(data), precedence, 0) && malformed == PrecedenceOf(data).Malformed?
  {
    precedence, malformed := 0, false;
    match data {
      case Some(Dword(n)) => precedence := n;
      case None =>
      case Some(_) => malformed := true;
    }
  }

  method TakeEnabled(data: Option<Data>) returns (enabled: bool, malformed: bool)
    ensures Shows(EnabledOf(data), enabled, true) && malformed == EnabledOf(data).Malformed?
  {
    enabled, malformed := true, false;
    match data {
      case Some(Dword(n)) =>
        if n <= 1 {
          enabled := n == 1;
        } else {
          malformed := true;
        }
      case None =>
      case Some(_) => malformed := true;
    }
  }

  method TakeOwner(data: Option<Data>, isSid: seq<byte> -> bool)
    returns (owner: Option<seq<byte>>, malformed: bool)
    ensures owner == if OwnerOf(data, isSid).Is? then Some(OwnerOf(data, isSid).value) else None
    ensures malformed == OwnerOf(data, isSid).Malformed?
  {
    owner, malformed := None, false;
    match data {
      case Some(Binary(b)) =>
        if isSid(b) {
          owner := Some(b);
        } else {
          malformed := true;
        }
      case None =>
      case Some(_) => malformed := true;
    }
  }

  method Read(registry: Registry, name: string, isSid: seq<byte> -> bool) returns (r: Result<Layer, Errno>)
    ensures r.Ok? ==>
              && Child(LAYERS, name) in registry.committed
              && r.value == LayerOf(name, registry.committed[Child(LAYERS, name)], isSid)
              && Describes(r.value, name, registry.committed[Child(LAYERS, name)], isSid)
    ensures r.Err? ==>
              || (r.error == EINVAL && '\0' in Child(LAYERS, name))
              || (r.error == ENOENT && Child(LAYERS, name) !in registry.committed)
              || (r.error.Other? && registry.mayFail)
  {
    var key :- registry.Open(Child(LAYERS, name));
    var p :- ReadValue(registry, key, PRECEDENCE);
    var precedence, badPrecedence := TakePrecedence(p);
    var e :- ReadValue(registry, key, ENABLED);
    var enabled, badEnabled := TakeEnabled(e);
    var o :- ReadValue(registry, key, OWNER);
    var owner, badOwner := TakeOwner(o, isSid);
    r := Ok(Layer(name, precedence, enabled, owner, badPrecedence || badEnabled || badOwner));
    LayerReadExactly(r.value, name, registry.committed[key], isSid);
  }

  // ---- What was created or set is what is read ----

  lemma DwordReadsBack(n: u32)
    ensures Decode(DwordValue(n).ty, DwordValue(n).data) == Dword(n)
  {
    CanonicalRoundTrip(Dword(n));
  }

  /** Values that are only a precedence and an enabled state read back as they were meant. */
  lemma LayerValuesReadBack(name: string, precedence: u32, enabled: bool, isSid: seq<byte> -> bool)
    ensures LayerOf(name, LayerValues(precedence, enabled), isSid) == Layer(name, precedence, enabled, None, false)
  {
    DwordReadsBack(precedence);
    DwordReadsBack(if enabled then 1 else 0);
  }

  /** A created layer reads back as it was asked for, in good form, and nothing else in the
      registry is different, but for the keys above it. */
  lemma CreatedReadsBack(c: Contents, name: string, precedence: u32, enabled: bool,
                         isSid: seq<byte> -> bool)
    ensures var after := WithLayer(c, name, precedence, enabled);
            && Child(LAYERS, name) in after
            && LayerOf(name, after[Child(LAYERS, name)], isSid)
               == Layer(name, precedence, enabled, None, false)
    ensures var after := WithLayer(c, name, precedence, enabled);
            && after.Keys == c.Keys + {Child(LAYERS, name)}
                           + (if LAYERS in c then {} else {REGISTRY, LAYERS})
            && (forall path :: path in c && path != Child(LAYERS, name) ==> after[path] == c[path])
            && forall path :: path in after && path !in c && path != Child(LAYERS, name) ==> after[path] == map[]
  {
    LayerValuesReadBack(name, precedence, enabled, isSid);
    ChildIsNew(c, name);
  }

  // ---- set ----

  /** Sets one value of a layer that is there and is not the base layer. */
  method Set(registry: Registry, name: string, valueName: string, value: Value)
    returns (r: Result<(), Errno>)
    modifies registry`committed
    ensures r.Err? ==> registry.committed == old(registry.committed)
    ensures r.Ok? ==>
              && !IsBase(name) && Child(LAYERS, name) in old(registry.committed)
              && registry.committed
                 == old(registry.committed)[Child(LAYERS, name) :=
                      old(registry.committed)[Child(LAYERS, name)][valueName := value]]
    ensures IsBase(name) || SpellsBase(name) ==> r == Err(EINVAL)
    ensures r.Err? ==>
              || (r.error == EINVAL && (IsBase(name) || '\0' in Child(LAYERS, name)))
              || (r.error == ENOENT && Child(LAYERS, name) !in registry.committed)
              || (r.error.Other? && registry.mayFail)
  {
    BaseIsSpelled(name);
    if IsBase(name) {
      return Err(EINVAL);
    }
    var key :- registry.Open(Child(LAYERS, name));
    r := registry.SetValue(key, valueName, value);
  }

  /** A precedence that was set is the one read, whatever was there, malformed or not; the rest
      of the layer reads as before. */
  lemma SetPrecedenceReadsBack(values: map<string, Value>, name: string, precedence: u32,
                               isSid: seq<byte> -> bool)
    ensures var before := LayerOf(name, values, isSid);
            var after := LayerOf(name, values[PRECEDENCE := DwordValue(precedence)], isSid);
            && after.precedence == precedence
            && after == before.(precedence := precedence, malformed := after.malformed)
            && (after.malformed ==> before.malformed)
  {
    DwordReadsBack(precedence);
    assert PRECEDENCE != ENABLED && PRECEDENCE != OWNER;
  }

  lemma SetEnabledReadsBack(values: map<string, Value>, name: string, enabled: bool,
                            isSid: seq<byte> -> bool)
    ensures var before := LayerOf(name, values, isSid);
            var after := LayerOf(name, values[ENABLED := DwordValue(if enabled then 1 else 0)], isSid);
            && after.enabled == enabled
            && after == before.(enabled := enabled, malformed := after.malformed)
            && (after.malformed ==> before.malformed)
  {
    DwordReadsBack(if enabled then 1 else 0);
    assert PRECEDENCE != ENABLED && OWNER != ENABLED;
  }

  // ---- list ----

  const BASE_LAYER := Layer("base", 0, true, None, false)

  /** Text order, character by character. */
  predicate TextLe(a: string, b: string) {
    a == "" || (b != "" && (a[0] < b[0] || (a[0] == b[0] && TextLe(a[1..], b[1..]))))
  }

  /** The highest precedence first, then by name without regard to case. */
  predicate Before(a: Layer, b: Layer) {
    a.precedence > b.precedence || (a.precedence == b.precedence && TextLe(Fold(a.name), Fold(b.name)))
  }

  /** Up to some place the texts are the same; there the first ends, or its character is less. */
  predicate ComesBefore(a: string, b: string) {
    exists n: nat :: n <= |a| && n <= |b| && a[..n] == b[..n] && (n == |a| || (n < |b| && a[n] < b[n]))
  }

  lemma ComesBeforeNext(a: string, b: string)
    requires a != "" && b != ""
    ensures ComesBefore(a, b) <==> a[0] < b[0] || (a[0] == b[0] && ComesBefore(a[1..], b[1..]))
  {
    if ComesBefore(a, b) {
      var n: nat :| n <= |a| && n <= |b| && a[..n] == b[..n] && (n == |a| || (n < |b| && a[n] < b[n]));
      if n > 0 {
        assert a[0] == a[..n][0] && b[0] == b[..n][0];
        assert a[1..][..n - 1] == a[..n][1..] && b[1..][..n - 1] == b[..n][1..];
      }
    }
    if a[0] < b[0] {
      assert a[..0] == b[..0];
    } else if a[0] == b[0] && ComesBefore(a[1..], b[1..]) {
      var n: nat :| n <= |a[1..]| && n <= |b[1..]| && a[1..][..n] == b[1..][..n]
                    && (n == |a[1..]| || (n < |b[1..]| && a[1..][n] < b[1..][n]));
      assert a[..n + 1] == [a[0]] + a[1..][..n] && b[..n + 1] == [b[0]] + b[1..][..n];
    }
  }

  lemma {:induction false} TextLeExactly(a: string, b: string)
    ensures TextLe(a, b) <==> ComesBefore(a, b)
  {
    if a == "" {
      assert a[..0] == b[..0];
    } else if b != "" {
      TextLeExactly(a[1..], b[1..]);
      ComesBeforeNext(a, b);
    }
  }

  predicate Sorted(layers: seq<Layer>) {
    forall i, j :: 0 <= i < j < |layers| ==> Before(layers[i], layers[j])
  }

  function Inserted(layer: Layer, layers: seq<Layer>): (r: seq<Layer>)
    ensures multiset(r) == multiset(layers) + multiset{layer}
  {
    if layers == [] || Before(layer, layers[0]) then [layer] + layers
    else
      assert layers == [layers[0]] + layers[1..];
      [layers[0]] + Inserted(layer, layers[1..])
  }

  /** The layers in order, as a sort leaves them. */
  function Ordered(layers: seq<Layer>): (r: seq<Layer>)
    ensures multiset(r) == multiset(layers)
  {
    if layers == [] then []
    else
      assert layers == [layers[0]] + layers[1..];
      Inserted(layers[0], Ordered(layers[1..]))
  }

  function WithoutBase(layers: seq<Layer>): (kept: seq<Layer>)
    ensures forall layer ::
              multiset(kept)[layer] == if IsBase(layer.name) then 0 else multiset(layers)[layer]
  {
    if layers == [] then []
    else
      assert layers == [layers[0]] + layers[1..];
      if IsBase(layers[0].name) then WithoutBase(layers[1..])
      else [layers[0]] + WithoutBase(layers[1..])
  }

  function Arranged(layers: seq<Layer>): seq<Layer> {
    Ordered(WithoutBase(layers) + [BASE_LAYER])
  }

  /** Every layer `list` reads, in the order their names were enumerated; an absent key above
      them has none. */
  method List(registry: Registry, names: Result<seq<string>, Errno>, isSid: seq<byte> -> bool)
    returns (r: Result<seq<Layer>, Errno>)
    ensures r.Ok? ==>
              && (names.Ok? || names.error == ENOENT)
              && var listed := if names.Ok? then names.value else [];
                 && (forall name <- listed :: Child(LAYERS, name) in registry.committed)
                 && r.value == Arranged(ReadAll(registry.committed, listed, isSid))
    ensures names.Err? && names.error != ENOENT ==> r == Err(names.error)
    // Otherwise only a layer that is not there, or cannot be, or a failed call stops it.
    ensures r.Err? && (names.Ok? || names.error == ENOENT) ==>
              || (r.error == EINVAL && names.Ok? && exists name <- names.value :: '\0' in Child(LAYERS, name))
              || (r.error == ENOENT && names.Ok?
                  && exists name <- names.value :: Child(LAYERS, name) !in registry.committed)
              || (r.error.Other? && registry.mayFail)
  {
    if names.Err? && names.error != ENOENT {
      return Err(names.error);
    }
    var listed := if names.Ok? then names.value else [];
    var layers: seq<Layer> := [];
    for i := 0 to |listed|
      invariant |layers| == i
      invariant forall j :: 0 <= j < i ==>
                  && Child(LAYERS, listed[j]) in registry.committed
                  && layers[j] == ReadOf(registry.committed, listed[j], isSid)
    {
      var layer :- Read(registry, listed[i], isSid);
      layers := layers + [layer];
    }
    assert layers == ReadAll(registry.committed, listed, isSid);
    return Ok(Arranged(layers));
  }

  function ReadOf(c: Contents, name: string, isSid: seq<byte> -> bool): Layer {
    var key := Child(LAYERS, name);
    LayerOf(name, if key in c then c[key] else map[], isSid)
  }

  function ReadAll(c: Contents, names: seq<string>, isSid: seq<byte> -> bool): (layers: seq<Layer>)
    ensures |layers| == |names|
    ensures forall i :: 0 <= i < |names| ==> layers[i] == ReadOf(c, names[i], isSid)
  {
    seq(|names|, i requires 0 <= i < |names| => ReadOf(c, names[i], isSid))
  }

  lemma {:induction false} TextLeTotal(a: string, b: string)
    ensures TextLe(a, b) || TextLe(b, a)
  {
    if a != "" && b != "" {
      TextLeTotal(a[1..], b[1..]);
    }
  }

  lemma {:induction false} TextLeTransitive(a: string, b: string, c: string)
    requires TextLe(a, b) && TextLe(b, c)
    ensures TextLe(a, c)
  {
    if a != "" && a[0] == b[0] == c[0] {
      TextLeTransitive(a[1..], b[1..], c[1..]);
    }
  }

  lemma BeforeTransitive(a: Layer, b: Layer, c: Layer)
    requires Before(a, b) && Before(b, c)
    ensures Before(a, c)
  {
    if a.precedence == b.precedence == c.precedence {
      TextLeTransitive(Fold(a.name), Fold(b.name), Fold(c.name));
    }
  }

  lemma {:induction false} InsertedIsSorted(layer: Layer, layers: seq<Layer>)
    requires Sorted(layers)
    ensures Sorted(Inserted(layer, layers))
  {
    if layers == [] {
    } else if Before(layer, layers[0]) {
      forall j | 0 < j < |layers|
        ensures Before(layer, layers[j])
      {
        BeforeTransitive(layer, layers[0], layers[j]);
      }
    } else {
      TextLeTotal(Fold(layer.name), Fold(layers[0].name));
      var rest := Inserted(layer, layers[1..]);
      InsertedIsSorted(layer, layers[1..]);
      forall other | other in rest
        ensures Before(layers[0], other)
      {
        assert other in multiset(rest);
      }
      assert forall j :: 0 <= j < |rest| ==> rest[j] in rest;
    }
  }

  lemma {:induction false} OrderedIsSorted(layers: seq<Layer>)
    ensures Sorted(Ordered(layers))
  {
    if layers == [] {
    } else {
      OrderedIsSorted(layers[1..]);
      InsertedIsSorted(layers[0], Ordered(layers[1..]));
    }
  }

  /** The order: no precedence is followed by a higher one, and among equals names come in the
      order of their characters, without regard to case. */
  lemma SortedMeans(layers: seq<Layer>, i: nat, j: nat)
    requires Sorted(layers) && i < j < |layers|
    ensures layers[i].precedence >= layers[j].precedence
    ensures layers[i].precedence == layers[j].precedence ==>
              ComesBefore(Fold(layers[i].name), Fold(layers[j].name))
  {
    TextLeExactly(Fold(layers[i].name), Fold(layers[j].name));
  }

  lemma ArrangedCounts(layers: seq<Layer>, layer: Layer)
    ensures multiset(Arranged(layers))[layer]
         == (if IsBase(layer.name) then 0 else multiset(layers)[layer]) + if layer == BASE_LAYER then 1 else 0
  {
    var kept := WithoutBase(layers);
    assert multiset(kept + [BASE_LAYER]) == multiset(kept) + multiset{BASE_LAYER};
  }

  /** What is listed is in order, and is every layer read, as often as it was read, but any key
      for the base layer, whose place the base layer itself takes, once. */
  lemma ListIsComplete(layers: seq<Layer>)
    ensures Sorted(Arranged(layers))
    ensures forall layer ::
              multiset(Arranged(layers))[layer]
              == if !IsBase(layer.name) then multiset(layers)[layer]
                 else if layer == Layer("base", 0, true, None, false) then 1 else 0
  {
    OrderedIsSorted(WithoutBase(layers) + [BASE_LAYER]);
    BaseIsSpelled(BASE_LAYER.name);
    forall layer
      ensures multiset(Arranged(layers))[layer]
           == if !IsBase(layer.name) then multiset(layers)[layer]
              else if layer == Layer("base", 0, true, None, false) then 1 else 0
    {
      ArrangedCounts(layers, layer);
    }
  }
}
