// The per-agent key/value store: a cache over files named "/agents/{id}/{key}".
module ContextStorage {
  import opened Bytes
  import opened Utf8Text
  import FsModel
  import opened OxideFiles

  const SLASH: byte := 47

  const ROOT: seq<byte> := [47, 97, 103, 101, 110, 116, 115, 47]  // "/agents/"

  // `{}` of an unsigned integer
  function Decimal(n: nat): (s: seq<byte>)
    ensures s != [] && forall i :: 0 <= i < |s| ==> 48 <= s[i] <= 57
  {
    if n < 10 then [48 + n] else Decimal(n / 10) + [48 + n % 10]
  }

  function DecimalValue(s: seq<byte>): int {
    if s == [] then 0 else 10 * DecimalValue(s[..|s| - 1]) + s[|s| - 1] - 48
  }

  lemma {:induction false} DecimalRoundTrip(n: nat)
    ensures DecimalValue(Decimal(n)) == n
  {
    if n >= 10 {
      DecimalRoundTrip(n / 10);
      assert Decimal(n)[..|Decimal(n)| - 1] == Decimal(n / 10);
    } else {
      assert Decimal(n)[..0] == [];
    }
  }

  function AgentDir(agent: nat): seq<byte> {
    ROOT + Decimal(agent) + [SLASH]
  }

  function PathOf(agent: nat, key: seq<byte>): Path {
    AgentDir(agent) + key
  }

  function FirstSlash(w: seq<byte>): nat {
    if w == [] || w[0] == SLASH then 0 else 1 + FirstSlash(w[1..])
  }

  lemma {:induction false} FirstSlashAfter(a: seq<byte>, s: seq<byte>)
    requires SLASH !in a
    ensures FirstSlash(a + [SLASH] + s) == |a|
  {
    if a != [] {
      FirstSlashAfter(a[1..], s);
      assert (a + [SLASH] + s)[1..] == a[1..] + [SLASH] + s;
    }
  }

  // The text before the first slash is determined, whatever follows it.
  lemma BeforeSlash(a: seq<byte>, s: seq<byte>, b: seq<byte>, t: seq<byte>)
    requires SLASH !in a && SLASH !in b && a + [SLASH] + s == b + [SLASH] + t
    ensures a == b && s == t
  {
    FirstSlashAfter(a, s);
    FirstSlashAfter(b, t);
    var w := a + [SLASH] + s;
    assert a == w[..|a|] && b == w[..|b|];
    assert s == w[|a| + 1..] && t == w[|b| + 1..];
  }

  // Agents' directories are disjoint and names are unique, even when keys contain slashes.
  lemma PathsSeparate(a: nat, k: seq<byte>, b: nat, j: seq<byte>)
    ensures PathOf(a, k) == PathOf(b, j) <==> a == b && k == j
    ensures AgentDir(a) <= PathOf(b, j) <==> a == b
  {
    if PathOf(a, k) == PathOf(b, j) { SamePath(a, k, b, j); }
    if AgentDir(a) <= PathOf(b, j) {
      var rest := PathOf(b, j)[|AgentDir(a)|..];
      assert PathOf(b, j) == PathOf(a, rest);
      SamePath(a, rest, b, j);
    }
  }

  lemma SamePath(a: nat, k: seq<byte>, b: nat, j: seq<byte>)
    requires PathOf(a, k) == PathOf(b, j)
    ensures a == b && k == j
  {
    var p := PathOf(a, k);
    assert p[|ROOT|..] == Decimal(a) + [SLASH] + k;
    assert p[|ROOT|..] == Decimal(b) + [SLASH] + j;
    BeforeSlash(Decimal(a), k, Decimal(b), j);
    DecimalRoundTrip(a);
    DecimalRoundTrip(b);
  }

  // Key "k" of agent 12 is in /agents/12/k.
  lemma PathExample()
    ensures PathOf(12, [107]) == [47, 97, 103, 101, 110, 116, 115, 47, 49, 50, 47, 107]
  {
    assert Decimal(1) == [49] && Decimal(12) == [49, 50];
  }

  // A key that is a string gives a path that is one.
  lemma PathIsString(agent: nat, key: seq<byte>)
    ensures Utf8(PathOf(agent, key)) <==> Utf8(key)
  {
    AsciiPrefix(AgentDir(agent), key);
  }

  // What the backing files hold for an agent's key.
  ghost function Lookup(fs: FsModel.Fs, agent: nat, key: seq<byte>): Option<seq<byte>> {
    FsModel.ReadFile(fs, PathOf(agent, key))
  }

  class ContextStore {
    var cache: map<nat, map<seq<byte>, seq<byte>>>
    const fs: OxideFs

    constructor (fs: OxideFs)
      requires fs.Valid()
      ensures this.fs == fs && Valid()
    {
      this.fs := fs;
      cache := map[];
    }

    // What is cached agrees with the files.
    ghost predicate Valid()
      reads this, fs
    {
      fs.Valid() && forall a, k :: a in cache && k in cache[a] ==> Lookup(fs.Value(), a, k) == Some(cache[a][k])
    }

    method Set(agent: nat, key: seq<byte>, value: seq<byte>, tick: u64)
      requires Valid()
      modifies this, fs
      ensures Valid()
      ensures forall a: nat, k: seq<byte> :: Lookup(fs.Value(), a, k) ==
                                             if a == agent && k == key then Some(value) else Lookup(old(fs.Value()), a, k)
      ensures old(FsModel.StringPaths(fs.Value())) && Utf8(key) ==> FsModel.StringPaths(fs.Value())
    {
      PathIsString(agent, key);
      hide PathOf, FsModel.ReadFile, Utf8;
      var store := if agent in cache then cache[agent] else map[];
      cache := cache[agent := store[key := value]];
      var _ := fs.WriteFile(PathOf(agent, key), value, tick);
      forall a: nat, k: seq<byte>
        ensures Lookup(fs.Value(), a, k) ==
                if a == agent && k == key then Some(value) else Lookup(old(fs.Value()), a, k)
      {
        PathsSeparate(agent, key, a, k);
      }
    }

    // The cache is transparent: the answer is always what the backing file holds.
    method Get(agent: nat, key: seq<byte>) returns (r: Option<seq<byte>>)
      requires Valid()
      ensures r == Lookup(fs.Value(), agent, key)
    {
      if agent in cache {
        var store := cache[agent];
        if key in store { return Some(store[key]); }
      }
      r := fs.ReadFile(PathOf(agent, key));
    }

    method Delete(agent: nat, key: seq<byte>) returns (known: bool)
      requires Valid()
      modifies this, fs
      ensures Valid() && known == (PathOf(agent, key) in old(fs.index))
      ensures forall a: nat, k: seq<byte> :: Lookup(fs.Value(), a, k) ==
                                             if a == agent && k == key then None else Lookup(old(fs.Value()), a, k)
    {
      hide PathOf;
      var fromCache := false;
      if agent in cache {
        fromCache := key in cache[agent];
        cache := cache[agent := cache[agent] - {key}];
      }
      var fromFs := fs.DeleteFile(PathOf(agent, key));
      known := fromCache || fromFs;
      forall a: nat, k: seq<byte>
        ensures Lookup(fs.Value(), a, k) == if a == agent && k == key then None else Lookup(old(fs.Value()), a, k)
      {
        PathsSeparate(agent, key, a, k);
      }
    }

    // Exactly the agent's live keys, each once.
    method Keys(agent: nat) returns (r: seq<seq<byte>>)
      requires Valid()
      ensures forall i, j :: 0 <= i < j < |r| ==> r[i] != r[j]
      ensures forall k: seq<byte> :: k in r <==> Lookup(fs.Value(), agent, k).Some?
    {
      var prefix := AgentDir(agent);
      var entries := fs.List(prefix);
      r := [];
      for i := 0 to |entries|
        invariant |r| == i && forall j :: 0 <= j < i ==> entries[j].path == PathOf(agent, r[j])
      {
        assert entries[i] in entries;
        var path := entries[i].path;
        assert path == prefix + path[|prefix|..];
        r := r + [path[|prefix|..]];
      }
      forall k: seq<byte> ensures k in r <==> Lookup(fs.Value(), agent, k).Some? {
        KeyListed(fs.Value(), fs.hash, entries, r, agent, k);
      }
    }

    // Removes every key of this agent and nothing of any other.
    method ClearAgent(agent: nat)
      requires Valid()
      modifies this, fs
      ensures Valid()
      ensures forall a: nat, k: seq<byte> :: Lookup(fs.Value(), a, k) ==
                                             if a == agent then None else Lookup(old(fs.Value()), a, k)
    {
      hide PathOf, AgentDir;
      cache := cache - {agent};
      var paths := fs.List(AgentDir(agent));
      ghost var before := fs.Value();
      for i := 0 to |paths|
        invariant fs.Valid() && cache == old(cache) - {agent}
        invariant forall p: Path :: FsModel.ReadFile(fs.Value(), p) ==
                                    if exists j :: 0 <= j < i && paths[j].path == p then None else FsModel.ReadFile(before, p)
      {
        var _ := fs.DeleteFile(paths[i].path);
      }
      forall a: nat, k: seq<byte>
        ensures Lookup(fs.Value(), a, k) == if a == agent then None else Lookup(before, a, k)
      {
        PathsSeparate(agent, k, a, k);
        ClearedKey(before, paths, agent, a, k);
      }
    }
  }

  lemma KeyListed(fs: FsModel.Fs, h: FsModel.Hash, entries: seq<FileEntry>, r: seq<seq<byte>>, agent: nat, k: seq<byte>)
    requires FsModel.FsInv(fs, h) && |r| == |entries|
    requires forall e :: e in entries <==> e.path in FsModel.LiveUnder(fs, AgentDir(agent)) && e == fs.index[e.path]
    requires forall j :: 0 <= j < |r| ==> entries[j].path == PathOf(agent, r[j])
    ensures k in r <==> Lookup(fs, agent, k).Some?
  {
    var p := PathOf(agent, k);
    if k in r {
      var j :| 0 <= j < |r| && r[j] == k;
      assert entries[j] in entries;
    }
    if Lookup(fs, agent, k).Some? {
      assert FsModel.EntryOk(fs.index[p], p, fs.blobs);
      assert fs.index[p] in entries;
      var j :| 0 <= j < |entries| && entries[j] == fs.index[p];
      SamePath(agent, r[j], agent, k);
    }
  }

  // A file is among those listed for the agent just when it is one of the agent's live keys.
  lemma ClearedKey(fs: FsModel.Fs, paths: seq<FileEntry>, agent: nat, a: nat, k: seq<byte>)
    requires forall e :: e in paths <==> e.path in FsModel.LiveUnder(fs, AgentDir(agent)) && e == fs.index[e.path]
    requires FsModel.IndexInv(fs.index, fs.blobs)
    requires AgentDir(agent) <= PathOf(a, k) <==> a == agent
    ensures (exists j :: 0 <= j < |paths| && paths[j].path == PathOf(a, k)) <==>
            a == agent && Lookup(fs, a, k).Some?
  {
    var p := PathOf(a, k);
    if j :| 0 <= j < |paths| && paths[j].path == p {
      assert paths[j] in paths;
      assert FsModel.EntryOk(fs.index[p], p, fs.blobs);
    }
    if a == agent && Lookup(fs, a, k).Some? {
      assert FsModel.EntryOk(fs.index[p], p, fs.blobs);
      assert fs.index[p] in paths;
      var j :| 0 <= j < |paths| && paths[j] == fs.index[p];
    }
  }
}
