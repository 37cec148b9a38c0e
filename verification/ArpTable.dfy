/** The proxy ARP table: a bounded map from (IPv4 address, VLAN) to MAC address, kept in 16
    entries that are searched linearly. */
module ArpTable {
  import opened Common

  const TABLE_SIZE: nat := 16

  type Ip = nat    // 32-bit address, most significant byte first
  type Key = (Ip, nat)

  /** IPv4 host group addresses: section 4 of RFC 1112, high-order bits 1110. */
  predicate IsGroup(ip: Ip) { (ip / 0x1000_0000) % 16 == 0xE }

  datatype Entry = Entry(ip: Ip, hw: Mac, vlan: nat, isFree: bool)

  function KeyOf(e: Entry): Key { (e.ip, e.vlan) }

  predicate Matches(e: Entry, k: Key) { !e.isFree && KeyOf(e) == k }

  datatype Status = Sok | Efail | Ealloc | Einvalid

  // ----- the table as a map -----

  ghost predicate UniqueKeys(t: seq<Entry>) {
    forall i, j :: 0 <= i < j < |t| && !t[i].isFree && !t[j].isFree ==> KeyOf(t[i]) != KeyOf(t[j])
  }

  ghost function Model(t: seq<Entry>): map<Key, Mac> {
    if t == [] then map[]
    else
      var m, e := Model(t[..|t| - 1]), t[|t| - 1];
      if e.isFree then m else m[KeyOf(e) := e.hw]
  }

  function CountUsed(t: seq<Entry>): nat {
    if t == [] then 0 else CountUsed(t[..|t| - 1]) + if t[|t| - 1].isFree then 0 else 1
  }

  /** Keys of the map are the keys of entries in use. */
  lemma {:induction false} ModelKeys(t: seq<Entry>, k: Key)
    ensures k in Model(t) <==> exists i :: 0 <= i < |t| && Matches(t[i], k)
  {
    if t != [] {
      var n := |t| - 1;
      ModelKeys(t[..n], k);
      if i :| 0 <= i < n && Matches(t[..n][i], k) {
        assert Matches(t[i], k);
      }
      if i :| 0 <= i < |t| && Matches(t[i], k) {
        assert i < n ==> Matches(t[..n][i], k);
      }
    }
  }

  /** An entry in use gives the value of its key. */
  lemma {:induction false} ModelAt(t: seq<Entry>, i: nat)
    requires UniqueKeys(t) && i < |t| && !t[i].isFree
    ensures KeyOf(t[i]) in Model(t) && Model(t)[KeyOf(t[i])] == t[i].hw
  {
    var n := |t| - 1;
    if i < n {
      assert t[..n][i] == t[i];
      ModelAt(t[..n], i);
    }
  }

  /** The number of entries in use is the size of the map. */
  lemma {:induction false} ModelSize(t: seq<Entry>)
    requires UniqueKeys(t)
    ensures |Model(t)| == CountUsed(t)
  {
    if t != [] {
      var n := |t| - 1;
      ModelSize(t[..n]);
      if !t[n].isFree {
        ModelKeys(t[..n], KeyOf(t[n]));
      }
    }
  }

  lemma {:induction false} CountFull(t: seq<Entry>)
    ensures CountUsed(t) <= |t|
    ensures CountUsed(t) == |t| <==> forall i :: 0 <= i < |t| ==> !t[i].isFree
  {
    if t != [] {
      var n := |t| - 1;
      CountFull(t[..n]);
      assert forall i :: 0 <= i < n ==> t[..n][i] == t[i];
    }
  }

  /** Two tables with the same entries in use under each key are the same map. */
  lemma ModelExtensional(t: seq<Entry>, m: map<Key, Mac>)
    requires UniqueKeys(t)
    requires forall i :: 0 <= i < |t| && !t[i].isFree ==> KeyOf(t[i]) in m && m[KeyOf(t[i])] == t[i].hw
    requires forall k :: k in m ==> exists i :: 0 <= i < |t| && Matches(t[i], k)
    ensures Model(t) == m
  {
    forall k
      ensures k in Model(t) <==> k in m
      ensures k in m ==> Model(t)[k] == m[k]
    {
      ModelKeys(t, k);
      if i :| 0 <= i < |t| && Matches(t[i], k) {
        ModelAt(t, i);
      }
    }
  }

  /** Storing an entry for key `k` at `i`, where `i` is the key's entry or a free one. */
  lemma ModelPut(t: seq<Entry>, i: nat, e: Entry)
    requires UniqueKeys(t) && i < |t| && !e.isFree
    requires t[i].isFree || KeyOf(t[i]) == KeyOf(e)
    requires forall j :: 0 <= j < |t| && j != i ==> !Matches(t[j], KeyOf(e))
    ensures UniqueKeys(t[i := e]) && Model(t[i := e]) == Model(t)[KeyOf(e) := e.hw]
  {
    var r, m := t[i := e], Model(t)[KeyOf(e) := e.hw];
    forall j | 0 <= j < |r| && !r[j].isFree
      ensures KeyOf(r[j]) in m && m[KeyOf(r[j])] == r[j].hw
    {
      if j != i { ModelAt(t, j); assert !Matches(t[j], KeyOf(e)); }
    }
    forall k | k in m
      ensures exists j :: 0 <= j < |r| && Matches(r[j], k)
    {
      if k == KeyOf(e) {
        assert Matches(r[i], k);
      } else {
        ModelKeys(t, k);
        var j :| 0 <= j < |t| && Matches(t[j], k);
        assert Matches(r[j], k);
      }
    }
    ModelExtensional(r, m);
  }

  /** Freeing the entry of a key removes the key. */
  lemma ModelDrop(t: seq<Entry>, i: nat, e: Entry)
    requires UniqueKeys(t) && i < |t| && !t[i].isFree && e.isFree
    ensures UniqueKeys(t[i := e]) && Model(t[i := e]) == Model(t) - {KeyOf(t[i])}
  {
    var r, m := t[i := e], Model(t) - {KeyOf(t[i])};
    forall j | 0 <= j < |r| && !r[j].isFree
      ensures KeyOf(r[j]) in m && m[KeyOf(r[j])] == r[j].hw
    {
      ModelAt(t, j);
    }
    forall k | k in m
      ensures exists j :: 0 <= j < |r| && Matches(r[j], k)
    {
      ModelKeys(t, k);
      var j :| 0 <= j < |t| && Matches(t[j], k);
      assert Matches(r[j], k);
    }
    ModelExtensional(r, m);
  }

  // ----- the table object -----

  class Arp {
    const table: array<Entry>

    /** Unique keys, and no group address on either side. */
    ghost predicate Valid()
      reads table
    {
      && table.Length == TABLE_SIZE
      && UniqueKeys(table[..])
      && forall i :: 0 <= i < table.Length && !table[i].isFree ==>
           !IsMcast(table[i].hw) && !IsGroup(table[i].ip)
    }

    ghost function Map(): map<Key, Mac>
      reads table
    {
      Model(table[..])
    }

    constructor ()
      ensures Valid() && fresh(table) && Map() == map[]
    {
      table := new Entry[TABLE_SIZE](_ => Entry(0, 0, 0, true));
      new;
      ModelExtensional(table[..], map[]);
    }

    method GetHwAddr(ip: Ip, vlan: nat) returns (hw: Option<Mac>)
      requires Valid()
      ensures hw == if (ip, vlan) in Map() then Some(Map()[(ip, vlan)]) else None
    {
      var i := 0;
      while i < TABLE_SIZE
        invariant 0 <= i <= TABLE_SIZE
        invariant forall j :: 0 <= j < i ==> !Matches(table[j], (ip, vlan))
      {
        if !table[i].isFree && table[i].vlan == vlan && table[i].ip == ip {
          ModelAt(table[..], i);
          return Some(table[i].hw);
        }
        i := i + 1;
      }
      ModelKeys(table[..], (ip, vlan));
      return None;
    }

    /** Binds the key, replacing an earlier MAC; refuses group addresses, and a new key when the
        map is full. */
    method AddAddr(ip: Ip, hw: Mac, vlan: nat) returns (status: Status)
      requires Valid()
      modifies table
      ensures Valid()
      ensures status == Einvalid <==> IsMcast(hw) || IsGroup(ip)
      ensures status == Ealloc <==> !IsMcast(hw) && !IsGroup(ip)
                                    && (ip, vlan) !in old(Map()) && |old(Map())| == TABLE_SIZE
      ensures status == Sok || status == Einvalid || status == Ealloc
      ensures Map() == if status == Sok then old(Map())[(ip, vlan) := hw] else old(Map())
    {
      if IsMcast(hw) {
        return Einvalid;
      } else if IsGroup(ip) {
        return Einvalid;
      }
      ModelKeys(table[..], (ip, vlan));
      var i := 0;
      while i < TABLE_SIZE
        invariant 0 <= i <= TABLE_SIZE
        invariant forall j :: 0 <= j < i ==> !Matches(table[j], (ip, vlan))
      {
        if !table[i].isFree && table[i].vlan == vlan && table[i].ip == ip {
          ModelPut(table[..], i, table[i].(hw := hw));
          table[i] := table[i].(hw := hw);
          assert table[..] == old(table[..])[i := table[i]];
          return Sok;
        }
        i := i + 1;
      }
      i := 0;
      while i < TABLE_SIZE
        invariant 0 <= i <= TABLE_SIZE
        invariant forall j :: 0 <= j < i ==> !table[j].isFree
      {
        if table[i].isFree {
          ModelSize(table[..]);
          CountFull(table[..]);
          ModelPut(table[..], i, Entry(ip, hw, vlan, false));
          table[i] := Entry(ip, hw, vlan, false);
          assert table[..] == old(table[..])[i := table[i]];
          return Sok;
        }
        i := i + 1;
      }
      ModelSize(table[..]);
      CountFull(table[..]);
      return Ealloc;
    }

    /** Removes the key if it is bound. */
    method DelAddr(ip: Ip, vlan: nat) returns (status: Status)
      requires Valid()
      modifies table
      ensures Valid()
      ensures status == if (ip, vlan) in old(Map()) then Sok else Efail
      ensures Map() == old(Map()) - {(ip, vlan)}
    {
      ModelKeys(table[..], (ip, vlan));
      var i := 0;
      while i < TABLE_SIZE
        invariant 0 <= i <= TABLE_SIZE
        invariant forall j :: 0 <= j < i ==> !Matches(table[j], (ip, vlan))
      {
        if !table[i].isFree && table[i].vlan == vlan && table[i].ip == ip {
          ModelAt(table[..], i);
          ModelDrop(table[..], i, Entry(0, 0, vlan, true));
          table[i] := Entry(0, 0, vlan, true);
          assert table[..] == old(table[..])[i := table[i]];
          return Sok;
        }
        i := i + 1;
      }
      return Efail;
    }

    method GetUseCnt() returns (cnt: nat)
      requires Valid()
      ensures cnt == |Map()|
    {
      cnt := 0;
      var i := 0;
      while i < TABLE_SIZE
        invariant 0 <= i <= TABLE_SIZE
        invariant cnt == CountUsed(table[..i])
      {
        assert table[..i + 1][..i] == table[..i];
        if !table[i].isFree {
          cnt := cnt + 1;
        }
        i := i + 1;
      }
      assert table[..i] == table[..];
      ModelSize(table[..]);
    }
  }

  /** In a valid table nothing bound is a group address. */
  lemma NoGroupBound(t: seq<Entry>, k: Key)
    requires UniqueKeys(t)
    requires forall i :: 0 <= i < |t| && !t[i].isFree ==> !IsMcast(t[i].hw) && !IsGroup(t[i].ip)
    requires k in Model(t)
    ensures !IsGroup(k.0) && !IsMcast(Model(t)[k])
  {
    ModelKeys(t, k);
    var i :| 0 <= i < |t| && Matches(t[i], k);
    ModelAt(t, i);
  }

  /** What is refused: the 32-bit addresses from 224.0.0.0 to 239.255.255.255, and hardware addresses
      whose first byte is odd. */
  lemma GroupAddresses(ip: Ip, first: Byte, rest: nat)
    requires ip < U32 && rest < 0x100_0000_0000
    ensures IsGroup(ip) <==> 224 * 0x100_0000 <= ip < 240 * 0x100_0000
    ensures IsMcast(first * 0x100_0000_0000 + rest) <==> first % 2 == 1
  {
    assert (first * 0x100_0000_0000 + rest) / 0x100_0000_0000 == first;
  }
}
