// Permissions and resource references, and what a capability on them lets its holder reach.
module Resources {
  import opened Bytes

  ////////////// Permissions //////////////

  type PermissionBits = bv32

  const WRITE: PermissionBits := 1 << 1
  const DELEGATE: PermissionBits := 1 << 3
  const CONNECT: PermissionBits := 1 << 8

  predicate Contains(self: PermissionBits, other: PermissionBits) {
    (self & other) == other
  }

  predicate CanDelegateTo(self: PermissionBits, subset: PermissionBits) {
    Contains(self, DELEGATE) && Contains(self, subset)
  }

  // Adding the bits of `other` adds nothing: no bit of it is missing.
  predicate MissesNone(self: PermissionBits, other: PermissionBits) {
    self | other == self
  }

  predicate MayDelegate(p: PermissionBits) {
    p & 0x8 != 0
  }

  predicate MayConnect(p: PermissionBits) {
    p & 0x100 != 0
  }

  lemma ContainsIff(self: PermissionBits, other: PermissionBits)
    ensures Contains(self, other) <==> MissesNone(self, other)
  {
    Absorbs(self, other);
    if Contains(self, other) { assert self | other == self | (self & other); }
    if MissesNone(self, other) { assert self & other == (self | other) & other; }
  }

  lemma Absorbs(a: PermissionBits, b: PermissionBits)
    ensures a | (a & b) == a && (a | b) & b == b
  {
  }

  lemma DelegateBit(p: PermissionBits)
    ensures Contains(p, DELEGATE) <==> MayDelegate(p)
  {
  }

  lemma ConnectBit(p: PermissionBits)
    ensures Contains(p, CONNECT) <==> MayConnect(p)
  {
  }

  lemma ContainsTransitive(a: PermissionBits, b: PermissionBits, c: PermissionBits)
    requires Contains(a, b) && Contains(b, c)
    ensures Contains(a, c)
  {
    assert a & c == a & (b & c) == (a & b) & c;
  }

  ////////////// Resources //////////////

  datatype ResourceRef =
    | AgentRef(task: nat)
    | Memory(base: u64, length: u64)
    | Network(host: string, port: u16)
    | Storage(path: string)
    | Channel(name: string)
    | Tool(name: string)
    | Model(modelId: string)
    | AgentSpawn
    | System(name: string)

  type u16 = x: nat | x < 0x1_0000

  function SaturatingAdd(a: u64, b: u64): u64 {
    if a + b < TWO_64 then a + b else TWO_64 - 1
  }

  predicate IsSubsetOf(child: ResourceRef, parent: ResourceRef) {
    if child.Memory? && parent.Memory? then
      child.base >= parent.base &&
      SaturatingAdd(child.base, child.length) <= SaturatingAdd(parent.base, parent.length)
    else if child == parent then true
    else if child.Network? && parent.Network? then
      (parent.host == "*" || child.host == parent.host) && (parent.port == 0 || child.port == parent.port)
    else if child.Storage? && parent.Storage? then parent.path <= child.path
    else false
  }

  // Something a task may want to reach.
  datatype Target =
    | Byte(address: u64)
    | Endpoint(host: string, port: u16)
    | File(path: string)
    | Named(resource: ResourceRef)

  // What a resource reference stands for: the bytes of the region, the endpoints that match the
  // pattern, the paths with the prefix, or the named thing itself. The end of a region is exact.
  predicate Covers(r: ResourceRef, t: Target) {
    match t
    case Byte(address) => r.Memory? && r.base <= address < r.base + r.length
    case Endpoint(host, port) => r.Network? && (r.host == "*" || r.host == host) && (r.port == 0 || r.port == port)
    case File(path) => r.Storage? && r.path <= path
    case Named(n) => r == n && !r.Memory? && !r.Network? && !r.Storage?
  }

  ghost predicate CoversAll(parent: ResourceRef, child: ResourceRef) {
    forall t :: Covers(child, t) ==> Covers(parent, t)
  }

  lemma SubsetReflexive(r: ResourceRef)
    ensures IsSubsetOf(r, r)
  {
  }

  lemma SubsetTransitive(a: ResourceRef, b: ResourceRef, c: ResourceRef)
    requires IsSubsetOf(a, b) && IsSubsetOf(b, c)
    ensures IsSubsetOf(a, c)
  {
    if a.Storage? && b.Storage? && c.Storage? {
      assert c.path <= b.path <= a.path;
    }
  }

  // The check, kind by kind, in plain terms.
  lemma SubsetByKind(child: ResourceRef, parent: ResourceRef)
    ensures child.Memory? && parent.Memory? && parent.base + parent.length < TWO_64 && child.base + child.length < TWO_64 ==>
      (IsSubsetOf(child, parent) <==> parent.base <= child.base && child.base + child.length <= parent.base + parent.length)
    ensures child.Network? && parent.Network? ==>
      (IsSubsetOf(child, parent) <==> parent.host in {"*", child.host} && parent.port in {0, child.port})
    ensures child.Storage? && parent.Storage? ==>
      (IsSubsetOf(child, parent) <==> |parent.path| <= |child.path| && child.path[..|parent.path|] == parent.path)
    ensures !(child.Memory? && parent.Memory?) && !(child.Network? && parent.Network?) && !(child.Storage? && parent.Storage?) ==>
      (IsSubsetOf(child, parent) <==> child == parent)
  {
  }

  // The region has the last byte of the address space.
  predicate HasLastByte(r: ResourceRef) {
    r.Memory? && r.length > 0 && r.base + r.length >= TWO_64
  }

  // The child has the last byte and the parent has not: saturating ends cannot tell.
  predicate Widens(child: ResourceRef, parent: ResourceRef) {
    HasLastByte(child) && !HasLastByte(parent)
  }

  lemma SubsetCovers(child: ResourceRef, parent: ResourceRef, t: Target)
    requires IsSubsetOf(child, parent) && !Widens(child, parent) && Covers(child, t)
    ensures Covers(parent, t)
  {
    if child.Storage? && t.File? && child != parent {
      assert parent.path <= child.path <= t.path;
    }
  }

  // What passes the check reaches no more than the parent, unless it gains the last byte of the
  // address space.
  lemma ShrinksIff(child: ResourceRef, parent: ResourceRef)
    requires IsSubsetOf(child, parent)
    ensures CoversAll(parent, child) <==> !Widens(child, parent)
  {
    if Widens(child, parent) {
      assert Covers(child, Byte(TWO_64 - 1)) && !Covers(parent, Byte(TWO_64 - 1));
    } else {
      forall t | Covers(child, t) ensures Covers(parent, t) { SubsetCovers(child, parent, t); }
    }
  }

  // The check accepts a region that ends past the last byte under one that ends just before it.
  lemma LastByteEscapes()
    ensures var parent, child := Memory(TWO_64 - 2, 1), Memory(TWO_64 - 2, 2);
      IsSubsetOf(child, parent) && Covers(child, Byte(TWO_64 - 1)) && !Covers(parent, Byte(TWO_64 - 1))
  {
  }

  // The region covers no byte.
  predicate EmptyRegion(r: ResourceRef) {
    r.Memory? && r.length == 0
  }

  // Both regions saturate at the same end, but only the child has the byte there.
  predicate SlipsThrough(child: ResourceRef, parent: ResourceRef) {
    && child.Memory? && parent.Memory? && parent.base <= child.base
    && child.base + child.length >= TWO_64 && parent.base + parent.length == TWO_64 - 1
  }

  // The check is exact but for that: it accepts just what reaches no more than the parent and what
  // slips through. An empty region, which reaches nothing, is accepted only inside the parent's bounds.
  lemma SubsetIffCovers(child: ResourceRef, parent: ResourceRef)
    ensures IsSubsetOf(child, parent) <==>
      if EmptyRegion(child) then
        parent.Memory? && parent.base <= child.base <= SaturatingAdd(parent.base, parent.length)
      else CoversAll(parent, child) || SlipsThrough(child, parent)
    ensures SlipsThrough(child, parent) ==> !CoversAll(parent, child)
  {
    if SlipsThrough(child, parent) {
      assert Covers(child, Byte(TWO_64 - 1)) && !Covers(parent, Byte(TWO_64 - 1));
    } else if IsSubsetOf(child, parent) {
      ShrinksIff(child, parent);
    } else if !EmptyRegion(child) {
      var t := Escapes(child, parent);
    }
  }

  lemma Escapes(child: ResourceRef, parent: ResourceRef) returns (t: Target)
    requires !EmptyRegion(child) && !IsSubsetOf(child, parent)
    ensures Covers(child, t) && !Covers(parent, t)
  {
    match child
    case Memory(base, length) =>
      var last := (if base + length < TWO_64 then base + length else TWO_64) - 1;
      t := if Covers(parent, Byte(base)) then Byte(last) else Byte(base);
    case Network(host, port) =>
      if !parent.Network? {
        t := Endpoint(host, port);
      } else {
        var h := if host != "*" then host else parent.host + "x";
        var p := if port != 0 then port else if parent.port == 1 then 2 else 1;
        t := Endpoint(h, p);
      }
    case Storage(path) => t := File(path);
    case _ => t := Named(child);
  }
}
