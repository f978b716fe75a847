/** The keyring's two-way index in one flat namespace (crypto/keyring/keyring.go).

  A key is stored under its name, and its name's entry key under its address. Backend operations
  succeed. Serialization is a parameter; what decryption and derivation produce is an argument. */
module Keyring {
  import opened Lex
  import opened Outcomes
  import opened StoreKeys

  const INFO: Bytes := [105, 110, 102, 111]
  const ADDRESS: Bytes := [97, 100, 100, 114, 101, 115, 115]
  const DOT: byte := 46

  datatype Info = Info(name: Bytes, address: Bytes, payload: Bytes)

  function InfoKey(name: Bytes): Bytes {
    name + [DOT] + INFO
  }

  function HexDigit(d: int): byte
    requires 0 <= d < 16
  {
    if d < 10 then 48 + d else 87 + d
  }

  function Hex(b: Bytes): Bytes {
    if b == [] then [] else [HexDigit(b[0] / 16), HexDigit(b[0] % 16)] + Hex(b[1..])
  }

  function AddressKey(address: Bytes): Bytes {
    Hex(address) + [DOT] + ADDRESS
  }

  predicate HasSuffix(s: Bytes, suffix: Bytes) {
    |suffix| <= |s| && s[|s| - |suffix|..] == suffix
  }

  lemma {:induction false} HexInjective(a: Bytes, b: Bytes)
    requires Hex(a) == Hex(b)
    ensures a == b
  {
    if a != [] && b != [] {
      assert Hex(a)[0] == HexDigit(a[0] / 16) && Hex(a)[1] == HexDigit(a[0] % 16);
      assert Hex(b)[0] == HexDigit(b[0] / 16) && Hex(b)[1] == HexDigit(b[0] % 16);
      assert Hex(a[1..]) == Hex(a)[2..] && Hex(b[1..]) == Hex(b)[2..];
      HexInjective(a[1..], b[1..]);
      assert a == [a[0]] + a[1..] && b == [b[0]] + b[1..];
    }
  }

  /** Entry keys determine what they stand for, and the two kinds never meet. */
  lemma KeySpaces(m: Bytes, n: Bytes, a: Bytes, b: Bytes)
    ensures InfoKey(m) == InfoKey(n) <==> m == n
    ensures AddressKey(a) == AddressKey(b) <==> a == b
    ensures InfoKey(m) != AddressKey(a)
    ensures HasSuffix(InfoKey(m), INFO) && !HasSuffix(AddressKey(a), INFO)
  {
    assert m == InfoKey(m)[..|InfoKey(m)| - 5] && n == InfoKey(n)[..|InfoKey(n)| - 5];
    assert Hex(a) == AddressKey(a)[..|AddressKey(a)| - 8] && Hex(b) == AddressKey(b)[..|AddressKey(b)| - 8];
    if AddressKey(a) == AddressKey(b) {
      HexInjective(a, b);
    }
    assert InfoKey(m)[|InfoKey(m)| - 1] == 111 && AddressKey(a)[|AddressKey(a)| - 1] == 115;
    assert InfoKey(m)[|InfoKey(m)| - 4..] == INFO;
    var t := AddressKey(a)[|AddressKey(a)| - 4..];
    assert t[3] == 115 && INFO[3] == 111;
  }

  /** Every key is under its own name, and no two keys have the same address. */
  ghost predicate OneToOne(infos: map<Bytes, Info>) {
    && (forall n :: n in infos ==> infos[n].name == n)
    && (forall m, n :: m in infos && n in infos && infos[m].address == infos[n].address ==> m == n)
  }

  ghost predicate AddressTaken(infos: map<Bytes, Info>, address: Bytes) {
    exists n :: n in infos && infos[n].address == address
  }

  ghost predicate Free(infos: map<Bytes, Info>, info: Info) {
    info.name !in infos && !AddressTaken(infos, info.address)
  }

  datatype Op =
    | NewAccount(uid: Bytes, key: Option<(Bytes, Bytes)>)
    | Import(uid: Bytes, key: Option<(Bytes, Bytes)>)
    | Save(uid: Bytes, key: Option<(Bytes, Bytes)>)
    | Delete(uid: Bytes)
    | DeleteByAddress(address: Bytes)

  /** What an operation does to the stored keys. `key` is the address and the rest of the key, if
      derivation or decryption produced one. */
  ghost function Apply(infos: map<Bytes, Info>, op: Op): map<Bytes, Info> {
    match op
    case Delete(uid) => infos - {uid}
    case DeleteByAddress(address) => map n | n in infos && infos[n].address != address :: infos[n]
    case _ =>
      if op.key.None? then infos
      else
        var info := Info(op.uid, op.key.value.0, op.key.value.1);
        if Free(infos, info) then infos[op.uid := info] else infos
  }

  ghost function ApplyAll(ops: seq<Op>): map<Bytes, Info> {
    if ops == [] then map[] else Apply(ApplyAll(ops[..|ops| - 1]), ops[|ops| - 1])
  }

  ghost predicate Stored(db: map<Bytes, Bytes>, info: Info, marshal: Info -> Bytes) {
    var k, a := InfoKey(info.name), AddressKey(info.address);
    k in db && db[k] == marshal(info) && a in db && db[a] == k
  }

  ghost predicate Known(infos: map<Bytes, Info>, k: Bytes) {
    exists n :: n in infos && (k == InfoKey(n) || k == AddressKey(infos[n].address))
  }

  /** The database holds the two entries of each key and nothing else. */
  ghost predicate Indexed(db: map<Bytes, Bytes>, infos: map<Bytes, Info>, marshal: Info -> Bytes) {
    && OneToOne(infos)
    && (forall n :: n in infos ==> Stored(db, infos[n], marshal))
    && (forall k :: k in db ==> Known(infos, k))
  }

  lemma InfoEntry(db: map<Bytes, Bytes>, infos: map<Bytes, Info>, marshal: Info -> Bytes, n: Bytes)
    requires Indexed(db, infos, marshal)
    ensures InfoKey(n) in db <==> n in infos
  {
    hide InfoKey, AddressKey;
    if InfoKey(n) in db {
      var m :| m in infos && (InfoKey(n) == InfoKey(m) || InfoKey(n) == AddressKey(infos[m].address));
      KeySpaces(n, m, infos[m].address, []);
    }
  }

  lemma AddressEntry(db: map<Bytes, Bytes>, infos: map<Bytes, Info>, marshal: Info -> Bytes, address: Bytes)
    requires Indexed(db, infos, marshal)
    ensures AddressKey(address) in db <==> AddressTaken(infos, address)
  {
    hide InfoKey, AddressKey;
    var k := AddressKey(address);
    if k in db {
      var m :| m in infos && (k == InfoKey(m) || k == AddressKey(infos[m].address));
      KeySpaces(m, m, address, infos[m].address);
    }
  }

  /** The entries of two keys with different names and addresses do not meet. */
  lemma EntriesApart(a: Info, b: Info)
    requires a.name != b.name && a.address != b.address
    ensures {InfoKey(a.name), AddressKey(a.address)} !! {InfoKey(b.name), AddressKey(b.address)}
    ensures InfoKey(a.name) != AddressKey(a.address)
  {
    hide InfoKey, AddressKey;
    KeySpaces(a.name, b.name, a.address, b.address);
    KeySpaces(b.name, a.name, a.address, b.address);
    KeySpaces(a.name, b.name, b.address, a.address);
  }

  lemma StoredKept(db: map<Bytes, Bytes>, next: map<Bytes, Bytes>, info: Info, other: Info, marshal: Info -> Bytes)
    requires Stored(db, info, marshal) && info.name != other.name && info.address != other.address
    requires forall k :: k in db && k != InfoKey(other.name) && k != AddressKey(other.address) ==>
               k in next && next[k] == db[k]
    ensures Stored(next, info, marshal)
  {
    hide InfoKey, AddressKey;
    EntriesApart(info, other);
  }

  lemma AddKeepsIndex(db: map<Bytes, Bytes>, infos: map<Bytes, Info>, marshal: Info -> Bytes, info: Info)
    requires Indexed(db, infos, marshal) && Free(infos, info)
    ensures Indexed(db[InfoKey(info.name) := marshal(info)][AddressKey(info.address) := InfoKey(info.name)],
                    infos[info.name := info], marshal)
  {
    hide InfoKey, AddressKey, Stored;
    var after := infos[info.name := info];
    var next := db[InfoKey(info.name) := marshal(info)][AddressKey(info.address) := InfoKey(info.name)];
    assert OneToOne(after);
    forall n | n in after ensures Stored(next, after[n], marshal) {
      if n == info.name {
        StoredNow(next, db, info, marshal);
      } else {
        StoredKept(db, next, infos[n], info, marshal);
      }
    }
    assert after[info.name] == info;
    forall k | k in next ensures Known(after, k) {
      if k in db {
        KnownKept(infos, after, k);
      }
    }
  }

  lemma StoredNow(next: map<Bytes, Bytes>, db: map<Bytes, Bytes>, info: Info, marshal: Info -> Bytes)
    requires next == db[InfoKey(info.name) := marshal(info)][AddressKey(info.address) := InfoKey(info.name)]
    ensures Stored(next, info, marshal)
  {
    hide InfoKey, AddressKey;
    KeySpaces(info.name, [], info.address, []);
  }

  lemma KnownKept(infos: map<Bytes, Info>, after: map<Bytes, Info>, k: Bytes)
    requires Known(infos, k) && forall n :: n in infos ==> n in after && after[n] == infos[n]
    ensures Known(after, k)
  {
    hide InfoKey, AddressKey;
    var n :| n in infos && (k == InfoKey(n) || k == AddressKey(infos[n].address));
    assert after[n] == infos[n];
  }

  lemma RemoveKeepsIndex(db: map<Bytes, Bytes>, infos: map<Bytes, Info>, marshal: Info -> Bytes, uid: Bytes)
    requires Indexed(db, infos, marshal) && uid in infos
    ensures Indexed(db - {AddressKey(infos[uid].address)} - {InfoKey(uid)}, infos - {uid}, marshal)
  {
    hide InfoKey, AddressKey, Stored, Known;
    var after := infos - {uid};
    var next := db - {AddressKey(infos[uid].address)} - {InfoKey(uid)};
    assert OneToOne(after);
    forall n | n in after ensures Stored(next, after[n], marshal) {
      assert infos[n].address != infos[uid].address;
      StoredKept(db, next, infos[n], infos[uid], marshal);
    }
    forall k | k in next ensures Known(after, k) {
      KnownElsewhere(infos, uid, k);
    }
  }

  lemma KnownElsewhere(infos: map<Bytes, Info>, uid: Bytes, k: Bytes)
    requires Known(infos, k) && uid in infos && k != InfoKey(uid) && k != AddressKey(infos[uid].address)
    ensures Known(infos - {uid}, k)
  {
    hide InfoKey, AddressKey;
    var n :| n in infos && (k == InfoKey(n) || k == AddressKey(infos[n].address));
    assert n in infos - {uid} && (infos - {uid})[n] == infos[n];
  }

  lemma RemoveAddress(infos: map<Bytes, Info>, uid: Bytes)
    requires OneToOne(infos) && uid in infos
    ensures infos - {uid} == Apply(infos, DeleteByAddress(infos[uid].address))
  {
  }

  lemma NoSuchAddress(infos: map<Bytes, Info>, address: Bytes)
    requires !AddressTaken(infos, address)
    ensures infos == Apply(infos, DeleteByAddress(address))
  {
    assert forall n :: n in infos ==> infos[n].address != address;
  }

  /** The keys whose entries are among `keys`, in the order of the entries. */
  ghost predicate Listed(infos: map<Bytes, Info>, keys: seq<Bytes>, res: seq<Info>) {
    && (forall j :: 0 <= j < |res| ==>
          res[j].name in infos && infos[res[j].name] == res[j] && InfoKey(res[j].name) in keys)
    && (forall n :: n in infos && InfoKey(n) in keys ==> infos[n] in res)
    && (forall a, b :: 0 <= a < b < |res| ==> Less(InfoKey(res[a].name), InfoKey(res[b].name)))
  }

  lemma ListedNext(infos: map<Bytes, Info>, keys: seq<Bytes>, res: seq<Info>, n: Bytes)
    requires Listed(infos, keys, res) && OneToOne(infos) && n in infos
    requires forall k :: k in keys ==> Less(k, InfoKey(n))
    ensures Listed(infos, keys + [InfoKey(n)], res + [infos[n]])
  {
    hide InfoKey, Less;
    var more, all := res + [infos[n]], keys + [InfoKey(n)];
    forall m | m in infos && InfoKey(m) in all ensures infos[m] in more {
      KeySpaces(m, n, [], []);
      if m == n {
        assert more[|res|] == infos[n];
      } else {
        var j :| 0 <= j < |res| && res[j] == infos[m];
        assert more[j] == infos[m];
      }
    }
  }

  lemma ListedSkip(infos: map<Bytes, Info>, keys: seq<Bytes>, res: seq<Info>, k: Bytes)
    requires Listed(infos, keys, res) && forall n :: n in infos ==> InfoKey(n) != k
    ensures Listed(infos, keys + [k], res)
  {
    hide InfoKey, Less;
  }

  class Keystore {
    const marshal: Info -> Bytes
    const unmarshal: Bytes -> Option<Info>
    var db: map<Bytes, Bytes>
    /** The stored keys by name. */
    ghost var infos: map<Bytes, Info>

    ghost predicate Valid()
      reads this
    {
      && (forall i :: unmarshal(marshal(i)) == Some(i) && marshal(i) != [])
      && Indexed(db, infos, marshal)
    }

    constructor (m: Info -> Bytes, u: Bytes -> Option<Info>)
      requires forall i :: u(m(i)) == Some(i) && m(i) != []
      ensures Valid() && infos == map[]
    {
      marshal, unmarshal := m, u;
      db, infos := map[], map[];
    }

    /** `key`: the key under an entry key. */
    method Entry(k: Bytes) returns (r: Option<Info>)
      ensures r == if k in db && db[k] != [] then unmarshal(db[k]) else None
    {
      if k !in db {
        return None;
      }
      if db[k] == [] {
        return None;
      }
      return unmarshal(db[k]);
    }

    method Key(uid: Bytes) returns (r: Option<Info>)
      requires Valid()
      ensures r == if uid in infos then Some(infos[uid]) else None
    {
      hide InfoKey, AddressKey;
      InfoEntry(db, infos, marshal, uid);
      r := Entry(InfoKey(uid));
    }

    /** Finds exactly the key with this address, which is the one `Key` returns for its name. */
    method KeyByAddress(address: Bytes) returns (r: Option<Info>)
      requires Valid()
      ensures r.Some? <==> AddressTaken(infos, address)
      ensures r.Some? ==> r.value.address == address && r.value.name in infos && infos[r.value.name] == r.value
    {
      hide InfoKey, AddressKey;
      AddressEntry(db, infos, marshal, address);
      var k := AddressKey(address);
      if k !in db {
        return None;
      }
      ghost var n :| n in infos && infos[n].address == address;
      assert Stored(db, infos[n], marshal);
      KeySpaces(n, n, address, []);
      if db[k] == [] {
        return None;
      }
      r := Entry(db[k]);
    }

    /** `writeInfo`: refuses a name or an address that is already there. */
    method WriteInfo(info: Info) returns (ok: bool)
      requires Valid()
      modifies this
      ensures Valid()
      ensures ok <==> Free(old(infos), info)
      ensures infos == if ok then old(infos)[info.name := info] else old(infos)
    {
      hide InfoKey, AddressKey, Indexed;
      AddressEntry(db, infos, marshal, info.address);
      InfoEntry(db, infos, marshal, info.name);
      if AddressKey(info.address) in db {
        return false;
      }
      if InfoKey(info.name) in db {
        return false;
      }
      AddKeepsIndex(db, infos, marshal, info);
      db := db[InfoKey(info.name) := marshal(info)];
      db := db[AddressKey(info.address) := InfoKey(info.name)];
      infos := infos[info.name := info];
      return true;
    }

    /** `NewAccount` looks up the address first, the imports look up the name first, the saves neither;
        all succeed exactly when both are free. */
    method Add(op: Op) returns (ok: bool)
      requires Valid() && !op.Delete? && !op.DeleteByAddress?
      modifies this
      ensures Valid() && infos == Apply(old(infos), op)
      ensures ok <==> op.key.Some? && Free(old(infos), Info(op.uid, op.key.value.0, op.key.value.1))
    {
      hide InfoKey, AddressKey, Indexed;
      if op.Import? {
        var existing := Key(op.uid);
        if existing.Some? {
          return false;
        }
      }
      if op.key.None? {
        return false;
      }
      if op.NewAccount? {
        var existing := KeyByAddress(op.key.value.0);
        if existing.Some? {
          return false;
        }
      }
      ok := WriteInfo(Info(op.uid, op.key.value.0, op.key.value.1));
    }

    method Remove(uid: Bytes) returns (ok: bool)
      requires Valid()
      modifies this
      ensures Valid() && infos == old(infos) - {uid}
      ensures ok <==> uid in old(infos)
    {
      hide InfoKey, AddressKey, Indexed;
      var info := Key(uid);
      if info.None? {
        return false;
      }
      RemoveKeepsIndex(db, infos, marshal, uid);
      db := db - {AddressKey(info.value.address)};
      db := db - {InfoKey(uid)};
      infos := infos - {uid};
      return true;
    }

    method RemoveByAddress(address: Bytes) returns (ok: bool)
      requires Valid()
      modifies this
      ensures Valid() && infos == Apply(old(infos), DeleteByAddress(address))
      ensures ok <==> AddressTaken(old(infos), address)
    {
      hide InfoKey, AddressKey, Apply, OneToOne, Stored, Known, AddressTaken;
      var info := KeyByAddress(address);
      if info.None? {
        NoSuchAddress(infos, address);
        return false;
      }
      RemoveAddress(infos, info.value.name);
      ok := Remove(info.value.name);
    }

    /** Over every run the index stays consistent and the stored keys are what the operations say. */
    method Perform(ops: seq<Op>)
      requires Valid() && infos == map[]
      modifies this
      ensures Valid() && infos == ApplyAll(ops)
    {
      hide Indexed;
      for i := 0 to |ops|
        invariant Valid() && infos == ApplyAll(ops[..i])
      {
        assert ops[..i + 1][..i] == ops[..i];
        var ok;
        match ops[i] {
          case Delete(uid) => ok := Remove(uid);
          case DeleteByAddress(address) => ok := RemoveByAddress(address);
          case _ => ok := Add(ops[i]);
        }
      }
      assert ops[..|ops|] == ops;
    }

    /** The backend's keys, in any order. */
    method Keys() returns (ks: seq<Bytes>)
      ensures multiset(ks) == multiset(db.Keys)
    {
      ks := [];
      var rest := db.Keys;
      while rest != {}
        invariant rest <= db.Keys && multiset(ks) + multiset(rest) == multiset(db.Keys)
        decreases rest
      {
        var k :| k in rest;
        ks := ks + [k];
        rest := rest - {k};
      }
    }

    /** `List` returns every stored key once, in the order of the entry keys. */
    method List() returns (r: Option<seq<Info>>)
      requires Valid()
      ensures r.Some?
      ensures forall info :: info in r.value <==> info.name in infos && infos[info.name] == info
      ensures forall i, j :: 0 <= i < j < |r.value| ==> Less(InfoKey(r.value[i].name), InfoKey(r.value[j].name))
    {
      hide InfoKey, AddressKey, HasSuffix, Less, Listed, Stored, Known, OneToOne, Sorted;
      var keys := Keys();
      var sorted := SortStrings(keys);
      Increasing(sorted, db.Keys);
      var res: seq<Info> := [];
      ListedNone(infos);
      for i := 0 to |sorted|
        invariant Listed(infos, sorted[..i], res)
      {
        var k := sorted[i];
        assert k in multiset(sorted);
        assert sorted[..i + 1] == sorted[..i] + [k];
        EntryKind(db, infos, marshal, k);
        if HasSuffix(k, INFO) {
          ghost var n :| n in infos && k == InfoKey(n) && db[k] == marshal(infos[n]);
          if db[k] == [] {
            return None;
          }
          var info := unmarshal(db[k]);
          if info.None? {
            return None;
          }
          ListedNext(infos, sorted[..i], res, n);
          res := res + [info.value];
        } else {
          ListedSkip(infos, sorted[..i], res, k);
        }
      }
      assert sorted[..|sorted|] == sorted;
      ListedAll(db, infos, marshal, sorted, res);
      return Some(res);
    }
  }

  lemma ListedNone(infos: map<Bytes, Info>)
    ensures Listed(infos, [], [])
  {
  }

  lemma ListedAll(db: map<Bytes, Bytes>, infos: map<Bytes, Info>, marshal: Info -> Bytes,
                  keys: seq<Bytes>, res: seq<Info>)
    requires Indexed(db, infos, marshal) && Listed(infos, keys, res) && multiset(keys) == multiset(db.Keys)
    ensures forall info :: info in res <==> info.name in infos && infos[info.name] == info
    ensures forall i, j :: 0 <= i < j < |res| ==> Less(InfoKey(res[i].name), InfoKey(res[j].name))
  {
    hide InfoKey, AddressKey, Less;
    forall n | n in infos ensures infos[n] in res {
      InfoEntry(db, infos, marshal, n);
      assert InfoKey(n) in multiset(keys);
    }
  }

  lemma Increasing(s: seq<Bytes>, keys: set<Bytes>)
    requires Sorted(s) && multiset(s) == multiset(keys)
    ensures forall i, j :: 0 <= i < j < |s| ==> Less(s[i], s[j])
  {
    hide Less;
    forall i, j | 0 <= i < j < |s| ensures Less(s[i], s[j]) {
      PairAtPositions(s, i, j);
      assert multiset(keys)[s[i]] <= 1;
      assert s[i] != s[j];
    }
  }

  /** An entry key with the info suffix is the entry of a stored key. */
  lemma EntryKind(db: map<Bytes, Bytes>, infos: map<Bytes, Info>, marshal: Info -> Bytes, k: Bytes)
    requires Indexed(db, infos, marshal) && k in db
    ensures HasSuffix(k, INFO) ==> exists n :: n in infos && k == InfoKey(n) && db[k] == marshal(infos[n])
    ensures !HasSuffix(k, INFO) ==> forall n :: n in infos ==> InfoKey(n) != k
  {
    hide InfoKey, AddressKey, HasSuffix;
    var n :| n in infos && (k == InfoKey(n) || k == AddressKey(infos[n].address));
    KeySpaces(n, n, infos[n].address, []);
    forall m | m in infos ensures k == InfoKey(m) ==> HasSuffix(k, INFO) {
      KeySpaces(m, m, [], []);
    }
  }
}
