/**
 * The flat etcd keyspace and the Store over it: pkg/ipametcd/backend/etcd/backend.go. How an
 * address is written and read as text is a parameter.
 */
module Keyspace {
  import opened Addrs
  import opened OwnerText

  type Keys = map<string, string>

  /** The key prefix of a network, and the printing and parsing of addresses. */
  datatype Naming = Naming(prefix: string, text: Addr -> string, parse: string -> Option<Addr>)

  const LAST_PREFIX := "last_reserved_ip."

  /** The characters address text is made of. */
  predicate AddressChar(c: char) {
    '0' <= c <= '9' || 'a' <= c <= 'f' || 'A' <= c <= 'F' || c == ':' || c == '.'
  }

  /** Printed addresses parse back, and only non-empty texts of address characters parse. */
  ghost predicate CodecOk(nm: Naming) {
    && (forall a: Addr :: nm.parse(nm.text(a)) == Some(a))
    && (forall t: string :: nm.parse(t).Some? ==> t != "" && forall c :: c in t ==> AddressChar(c))
  }

  function KeyOf(nm: Naming, a: Addr): string {
    nm.prefix + "/" + nm.text(a)
  }

  function LastKey(nm: Naming, rangeID: string): string {
    nm.prefix + "/" + (LAST_PREFIX + rangeID)
  }

  /** A key that listing the network returns: the prefix is compared without a closing slash. */
  predicate Listed(nm: Naming, k: string) {
    nm.prefix <= k
  }

  lemma TailEqual(p: string, a: string, b: string)
    requires p + "/" + a == p + "/" + b
    ensures a == b
  {
    assert (p + "/" + a)[|p| + 1..] == a;
    assert (p + "/" + b)[|p| + 1..] == b;
  }

  /** Address keys are one to one, last-reserved keys are one to one, and no key is both. */
  lemma KeysApart(nm: Naming, a: Addr, b: Addr, r: string, s: string)
    requires CodecOk(nm)
    ensures KeyOf(nm, a) == KeyOf(nm, b) ==> a == b
    ensures LastKey(nm, r) == LastKey(nm, s) ==> r == s
    ensures KeyOf(nm, a) != LastKey(nm, r)
  {
    if KeyOf(nm, a) == KeyOf(nm, b) {
      TailEqual(nm.prefix, nm.text(a), nm.text(b));
      assert nm.parse(nm.text(a)) == Some(a) && nm.parse(nm.text(b)) == Some(b);
    }
    if LastKey(nm, r) == LastKey(nm, s) {
      TailEqual(nm.prefix, LAST_PREFIX + r, LAST_PREFIX + s);
      assert (LAST_PREFIX + r)[|LAST_PREFIX|..] == r;
      assert (LAST_PREFIX + s)[|LAST_PREFIX|..] == s;
    }
    assert nm.parse(nm.text(a)) == Some(a);
    assert (LAST_PREFIX + r)[0] == 'l' && 'l' in LAST_PREFIX + r && 'l' !in nm.text(a);
    if KeyOf(nm, a) == LastKey(nm, r) {
      TailEqual(nm.prefix, nm.text(a), LAST_PREFIX + r);
    }
  }

  /** A full key is never address text, because of its slash. */
  lemma KeyIsNoAddress(nm: Naming, k: string)
    requires CodecOk(nm) && '/' in k
    ensures nm.parse(k).None?
  {
    assert !AddressChar('/');
  }

  /** Behind the prefix and a slash, an address key reads as its address and a last-reserved key names its range. */
  lemma KeyReads(nm: Naming, a: Addr, r: string)
    requires CodecOk(nm)
    ensures var k, n := KeyOf(nm, a), |nm.prefix|;
            n < |k| && k[..n] == nm.prefix && k[n] == '/' && nm.parse(k[n + 1..]) == Some(a)
    ensures var k, n := LastKey(nm, r), |nm.prefix|;
            n < |k| && k[..n] == nm.prefix && k[n] == '/' && k[n + 1..] == "last_reserved_ip." + r
  {
    assert KeyOf(nm, a)[|nm.prefix| + 1..] == nm.text(a);
    assert LastKey(nm, r)[|nm.prefix| + 1..] == LAST_PREFIX + r;
    hide Trim;
  }

  ghost predicate SlashedKeys(kv: Keys) {
    forall k :: k in kv ==> '/' in k
  }

  lemma KeysSlashed(nm: Naming, a: Addr, r: string)
    ensures '/' in KeyOf(nm, a) && '/' in LastKey(nm, r)
    ensures Listed(nm, KeyOf(nm, a)) && Listed(nm, LastKey(nm, r))
  {
    assert KeyOf(nm, a)[|nm.prefix|] == '/' && LastKey(nm, r)[|nm.prefix|] == '/';
  }

  /** Listed keys whose trimmed value is `m`. */
  function Matching(nm: Naming, kv: Keys, m: string): set<string> {
    set k | k in kv && Listed(nm, k) && Trim(kv[k]) == m
  }

  /** The keys a release for this container and interface may delete, old values included. */
  function Owned(nm: Naming, kv: Keys, id: string, ifname: string): set<string> {
    Matching(nm, kv, Owner(id, ifname)) + Matching(nm, kv, Trim(id))
  }

  /** Those of them it deletes from: values with the interface name if there are any. */
  function Foremost(nm: Naming, kv: Keys, id: string, ifname: string): (ks: set<string>)
    ensures ks <= Owned(nm, kv, id, ifname) && (ks == {} <==> Owned(nm, kv, id, ifname) == {})
  {
    if Matching(nm, kv, Owner(id, ifname)) != {} then Matching(nm, kv, Owner(id, ifname))
    else Matching(nm, kv, Trim(id))
  }

  ghost predicate Reserved(nm: Naming, kv: Keys, a: Addr) {
    KeyOf(nm, a) in kv
  }

  function LastOf(nm: Naming, kv: Keys, rangeID: string): Option<Addr> {
    if LastKey(nm, rangeID) in kv then nm.parse(kv[LastKey(nm, rangeID)]) else None
  }

  function ReserveIn(nm: Naming, kv: Keys, id: string, ifname: string, a: Addr, rangeID: string): Keys {
    kv[KeyOf(nm, a) := Owner(id, ifname)][LastKey(nm, rangeID) := nm.text(a)]
  }

  class Store {
    const nm: Naming
    var kv: Keys

    constructor (nm: Naming, kv: Keys)
      ensures this.nm == nm && this.kv == kv
    {
      this.nm, this.kv := nm, kv;
    }

    method Reserve(containerID: string, ifname: string, ip: Addr, rangeID: string) returns (ok: bool)
      modifies this`kv
      ensures ok <==> !Reserved(nm, old(kv), ip)
      ensures kv == if ok then ReserveIn(nm, old(kv), containerID, ifname, ip, rangeID) else old(kv)
    {
      hide Trim;
      var key := nm.prefix + "/" + nm.text(ip);
      if key in kv {
        return false;
      }
      kv := kv[key := Trim(containerID) + LINE_BREAK + ifname];
      var ipKey := nm.prefix + "/" + (LAST_PREFIX + rangeID);
      kv := kv[ipKey := nm.text(ip)];
      ok := true;
    }

    method LastReservedIP(rangeID: string) returns (ip: Option<Addr>)
      ensures ip == LastOf(nm, kv, rangeID)
    {
      var ipKey := nm.prefix + "/" + (LAST_PREFIX + rangeID);
      ip := if ipKey in kv then nm.parse(kv[ipKey]) else None;
    }

    method Release(ip: Addr)
      modifies this`kv
      ensures kv == old(kv) - {KeyOf(nm, ip)}
    {
      kv := kv - {nm.prefix + "/" + nm.text(ip)};
    }

    method List() returns (res: Keys)
      ensures res == map k | k in kv && Listed(nm, k) :: kv[k]
    {
      res := map k | k in kv && Listed(nm, k) :: kv[k];
    }

    /** Deletes one matching key, whichever the listing yields first. */
    method ReleaseByKey(wanted: string) returns (found: bool, ghost dropped: set<string>)
      modifies this`kv
      ensures dropped <= Matching(nm, old(kv), wanted) && kv == old(kv) - dropped
      ensures found <==> Matching(nm, old(kv), wanted) != {}
      ensures |dropped| == if found then 1 else 0
    {
      var strs := List();
      var rest := strs.Keys;
      while rest != {}
        invariant rest <= strs.Keys && kv == old(kv)
        invariant Matching(nm, kv, wanted) <= rest
      {
        hide Trim;
        var k :| k in rest;
        rest := rest - {k};
        if Trim(strs[k]) == wanted {
          kv := kv - {k};
          assert k in Matching(nm, old(kv), wanted);
          return true, {k};
        }
      }
      return false, {};
    }

    /** One key of the container goes, new-style values first; nothing happens if there is none. */
    method ReleaseByID(id: string, ifname: string) returns (ghost dropped: set<string>)
      modifies this`kv
      ensures dropped <= Foremost(nm, old(kv), id, ifname) && kv == old(kv) - dropped
      ensures |dropped| == if Owned(nm, old(kv), id, ifname) == {} then 0 else 1
    {
      var found;
      found, dropped := ReleaseByKey(Trim(id) + LINE_BREAK + ifname);
      if !found {
        assert kv == old(kv);
        found, dropped := ReleaseByKey(Trim(id));
      }
    }

    /** The full key is parsed as an address, which it never is: the answer is always empty. */
    method GetByID(id: string, ifname: string) returns (ips: seq<Addr>)
      ensures CodecOk(nm) && SlashedKeys(kv) ==> ips == []
    {
      ips := [];
      var strs := List();
      var rest := strs.Keys;
      while rest != {}
        invariant rest <= strs.Keys
        invariant ips != [] ==> exists k :: k in kv && nm.parse(k).Some?
      {
        hide Trim;
        var ipStr :| ipStr in rest;
        rest := rest - {ipStr};
        var data := strs[ipStr];
        if Trim(data) == Trim(id) + LINE_BREAK + ifname || Trim(data) == Trim(id) {
          var ip := nm.parse(ipStr);
          if ip.Some? {
            ips := ips + [ip.value];
          }
        }
      }
      if CodecOk(nm) && SlashedKeys(kv) {
        forall k | k in kv { KeyIsNoAddress(nm, k); }
      }
    }
  }

  // ------------------------------------------------------------------
  // The flat keyspace as two maps

  /** The keyspace of one network holds exactly these reservations and these last addresses. */
  ghost predicate Encodes(nm: Naming, kv: Keys, owners: map<Addr, string>, last: map<string, Addr>) {
    && (forall a :: a in owners <==> KeyOf(nm, a) in kv)
    && (forall a :: a in owners ==> kv[KeyOf(nm, a)] == owners[a])
    && (forall r :: r in last <==> LastKey(nm, r) in kv)
    && (forall r :: r in last ==> kv[LastKey(nm, r)] == nm.text(last[r]))
  }

  /** An address key or a last-reserved key of this network. */
  ghost predicate KeyIn(nm: Naming, k: string) {
    (exists a :: k == KeyOf(nm, a)) || (exists r :: k == LastKey(nm, r))
  }

  /** Every listed key is a key of this very network. */
  ghost predicate OwnKeysOnly(nm: Naming, kv: Keys) {
    forall k :: k in kv && Listed(nm, k) ==> KeyIn(nm, k)
  }

  /** The put of the owner, the first of Reserve's two. */
  lemma OwnerPutEncodes(nm: Naming, kv: Keys, owners: map<Addr, string>, last: map<string, Addr>, v: string, a: Addr)
    requires CodecOk(nm) && Encodes(nm, kv, owners, last)
    ensures Encodes(nm, kv[KeyOf(nm, a) := v], owners[a := v], last)
  {
    hide CodecOk, KeyOf, LastKey;
    var kv' := kv[KeyOf(nm, a) := v];
    forall b
      ensures KeyOf(nm, b) in kv' <==> b in owners || b == a
      ensures b != a && b in owners ==> kv'[KeyOf(nm, b)] == owners[b]
    {
      KeysApart(nm, b, a, "", "");
    }
    forall r ensures LastKey(nm, r) in kv' <==> r in last
             ensures r in last ==> kv'[LastKey(nm, r)] == nm.text(last[r])
    {
      KeysApart(nm, a, a, r, r);
    }
  }

  /** The put of the last address, the second of the two. */
  lemma LastPutEncodes(nm: Naming, kv: Keys, owners: map<Addr, string>, last: map<string, Addr>, a: Addr,
                       rangeID: string)
    requires CodecOk(nm) && Encodes(nm, kv, owners, last)
    ensures Encodes(nm, kv[LastKey(nm, rangeID) := nm.text(a)], owners, last[rangeID := a])
  {
    hide CodecOk, KeyOf, LastKey;
    var kv' := kv[LastKey(nm, rangeID) := nm.text(a)];
    forall b
      ensures KeyOf(nm, b) in kv' <==> b in owners
      ensures b in owners ==> kv'[KeyOf(nm, b)] == owners[b]
    {
      KeysApart(nm, b, b, rangeID, rangeID);
    }
    forall r
      ensures LastKey(nm, r) in kv' <==> r in last || r == rangeID
      ensures r != rangeID && r in last ==> kv'[LastKey(nm, r)] == nm.text(last[r])
    {
      KeysApart(nm, a, a, r, rangeID);
    }
  }

  lemma ReserveEncodes(nm: Naming, kv: Keys, owners: map<Addr, string>, last: map<string, Addr>,
                       id: string, ifname: string, a: Addr, rangeID: string)
    requires CodecOk(nm) && Encodes(nm, kv, owners, last)
    ensures Reserved(nm, kv, a) <==> a in owners
    ensures Encodes(nm, ReserveIn(nm, kv, id, ifname, a, rangeID), owners[a := Owner(id, ifname)], last[rangeID := a])
    ensures LastOf(nm, kv, rangeID) == if rangeID in last then Some(last[rangeID]) else None
  {
    OwnerPutEncodes(nm, kv, owners, last, Owner(id, ifname), a);
    LastPutEncodes(nm, kv[KeyOf(nm, a) := Owner(id, ifname)], owners[a := Owner(id, ifname)], last, a, rangeID);
    if rangeID in last { ParsesBack(nm, last[rangeID]); }
    hide CodecOk, KeyOf, LastKey, Owner;
  }

  lemma ParsesBack(nm: Naming, a: Addr)
    requires CodecOk(nm)
    ensures nm.parse(nm.text(a)) == Some(a)
  {
  }

  lemma DropEncodes(nm: Naming, kv: Keys, owners: map<Addr, string>, last: map<string, Addr>, a: Addr)
    requires CodecOk(nm) && Encodes(nm, kv, owners, last)
    ensures Encodes(nm, kv - {KeyOf(nm, a)}, owners - {a}, last)
  {
    hide CodecOk, KeyOf, LastKey;
    forall b ensures KeyOf(nm, b) in kv - {KeyOf(nm, a)} <==> b in owners && b != a { KeysApart(nm, a, b, "", ""); }
    forall r ensures LastKey(nm, r) in kv - {KeyOf(nm, a)} <==> r in last { KeysApart(nm, a, a, r, r); }
  }

  /** The last address stored for a range is taken for an owner exactly by a release whose id is that address text. */
  lemma LastIsNoOwner(nm: Naming, a: Addr, id: string, ifname: string)
    requires CodecOk(nm)
    ensures Matches(nm.text(a), id, ifname) <==> Trim(id) == nm.text(a)
    ensures nm.parse(Trim(id)).None? ==> Trim(id) != nm.text(a)
  {
    var t := nm.text(a);
    assert nm.parse(t) == Some(a);
    assert t[0] in t && t[|t| - 1] in t;
    assert forall c :: AddressChar(c) ==> !IsSpace(c);
    TrimTrimmed(t);
    assert Owner(id, ifname)[|Trim(id)|] == '\r' && !AddressChar('\r');
  }

  /** So a release can delete a last-reserved entry exactly if its id is the address stored there. */
  lemma LastOwnedExact(nm: Naming, kv: Keys, id: string, ifname: string, r: string, a: Addr)
    requires CodecOk(nm) && LastKey(nm, r) in kv && kv[LastKey(nm, r)] == nm.text(a)
    ensures LastKey(nm, r) in Owned(nm, kv, id, ifname) <==> Trim(id) == nm.text(a)
  {
    KeysSlashed(nm, a, r);
    LastIsNoOwner(nm, a, id, ifname);
    hide CodecOk, KeyOf, LastKey, Owner, Trim;
  }

  lemma LastNotOwned(nm: Naming, kv: Keys, owners: map<Addr, string>, last: map<string, Addr>,
                     id: string, ifname: string, r: string)
    requires CodecOk(nm) && Encodes(nm, kv, owners, last) && nm.parse(Trim(id)).None? && r in last
    ensures LastKey(nm, r) !in Owned(nm, kv, id, ifname)
  {
    hide CodecOk, KeyOf, LastKey, Owner, Trim;
    LastIsNoOwner(nm, last[r], id, ifname);
    LastOwnedExact(nm, kv, id, ifname, r, last[r]);
  }

  /**
   * In a network whose listing returns only its own keys, a release for an id that is not
   * address text frees one of the addresses whose value matches, and touches nothing else.
   */
  lemma ReleaseEncodes(nm: Naming, kv: Keys, owners: map<Addr, string>, last: map<string, Addr>,
                       id: string, ifname: string, k: string) returns (a: Addr)
    requires CodecOk(nm) && Encodes(nm, kv, owners, last) && OwnKeysOnly(nm, kv) && nm.parse(Trim(id)).None?
    requires k in Owned(nm, kv, id, ifname)
    ensures a in owners && (Trim(owners[a]) == Owner(id, ifname) || Trim(owners[a]) == Trim(id))
    ensures k == KeyOf(nm, a) && Encodes(nm, kv - {k}, owners - {a}, last)
  {
    hide CodecOk, KeyOf, LastKey, Owner, Trim;
    assert k in kv && Listed(nm, k);
    forall r ensures k != LastKey(nm, r) {
      if r in last { LastNotOwned(nm, kv, owners, last, id, ifname, r); }
    }
    a :| k == KeyOf(nm, a);
    DropEncodes(nm, kv, owners, last, a);
  }

  /** Every reservation was stored for one of these holders, whose ids are proper ones. */
  ghost predicate HeldBy(owners: map<Addr, string>, holders: map<Addr, Holder>) {
    && owners.Keys == holders.Keys
    && forall a :: a in holders ==> CleanId(holders[a].id) && owners[a] == Owner(holders[a].id, holders[a].ifname)
  }

  lemma AddressOwned(nm: Naming, kv: Keys, owners: map<Addr, string>, last: map<string, Addr>,
                     id: string, ifname: string, a: Addr)
    requires Encodes(nm, kv, owners, last) && a in owners
    ensures KeyOf(nm, a) in Owned(nm, kv, id, ifname) <==> Matches(owners[a], id, ifname)
  {
    KeysSlashed(nm, a, "");
    hide KeyOf, LastKey, Owner, Trim;
  }

  /**
   * What a release may free is exactly what is held by its own container, under its own interface
   * name or with none stored: nothing of another container, and no last-reserved entry.
   */
  lemma OwnedExact(nm: Naming, kv: Keys, owners: map<Addr, string>, last: map<string, Addr>, holders: map<Addr, Holder>,
                   id: string, ifname: string)
    requires CodecOk(nm) && Encodes(nm, kv, owners, last) && OwnKeysOnly(nm, kv)
    requires HeldBy(owners, holders) && OneLine(Trim(id)) && nm.parse(Trim(id)).None?
    ensures Owned(nm, kv, id, ifname) == set a | a in holders && Finds(id, ifname, holders[a]) :: KeyOf(nm, a)
  {
    hide CodecOk, KeyOf, LastKey, Owner, Trim, OneLine, CleanId, Finds, Matches, Encodes, OwnKeysOnly;
    forall a | a in holders ensures KeyOf(nm, a) in Owned(nm, kv, id, ifname) <==> Finds(id, ifname, holders[a]) {
      AddressOwned(nm, kv, owners, last, id, ifname, a);
      FindsExact(id, ifname, holders[a]);
    }
    forall k | k in Owned(nm, kv, id, ifname) ensures exists a :: a in holders && k == KeyOf(nm, a) {
      var a := ReleaseEncodes(nm, kv, owners, last, id, ifname, k);
    }
    hide Owned;
  }

  /** So a release frees an address of its own container, and all others keep their owners. */
  lemma ReleaseFreesOwn(nm: Naming, kv: Keys, owners: map<Addr, string>, last: map<string, Addr>,
                        holders: map<Addr, Holder>,
                        id: string, ifname: string, k: string) returns (a: Addr)
    requires CodecOk(nm) && Encodes(nm, kv, owners, last) && OwnKeysOnly(nm, kv)
    requires HeldBy(owners, holders) && OneLine(Trim(id)) && nm.parse(Trim(id)).None?
    requires k in Owned(nm, kv, id, ifname)
    ensures a in holders && Finds(id, ifname, holders[a]) && k == KeyOf(nm, a)
    ensures Encodes(nm, kv - {k}, owners - {a}, last) && HeldBy(owners - {a}, holders - {a})
  {
    hide CodecOk, KeyOf, LastKey, Owner, Trim, OneLine, CleanId, Finds, Matches, Encodes, OwnKeysOnly;
    a := ReleaseEncodes(nm, kv, owners, last, id, ifname, k);
    AddressOwned(nm, kv, owners, last, id, ifname, a);
    FindsExact(id, ifname, holders[a]);
  }

  // ------------------------------------------------------------------
  // What a container owns

  /** Every last-reserved entry holds address text, as Reserve writes it. */
  ghost predicate LastsOk(nm: Naming, kv: Keys) {
    forall r :: LastKey(nm, r) in kv ==> exists a: Addr :: kv[LastKey(nm, r)] == nm.text(a)
  }

  lemma LastKeyNotOwned(nm: Naming, kv: Keys, id: string, ifname: string, r: string)
    requires CodecOk(nm) && LastsOk(nm, kv) && nm.parse(Trim(id)).None?
    ensures LastKey(nm, r) !in Owned(nm, kv, id, ifname)
  {
    hide CodecOk, LastKey, Owner, Trim;
    if LastKey(nm, r) in kv {
      var a: Addr :| kv[LastKey(nm, r)] == nm.text(a);
      LastIsNoOwner(nm, a, id, ifname);
      LastOwnedExact(nm, kv, id, ifname, r, a);
    }
  }

  /** A reservation adds its key to what the container owns, if its value is recognised, and nothing else. */
  lemma OwnedReserve(nm: Naming, kv: Keys, id: string, ifname: string, a: Addr, rangeID: string)
    requires CodecOk(nm) && LastsOk(nm, kv) && nm.parse(Trim(id)).None? && KeyOf(nm, a) !in kv
    ensures var kv' := ReserveIn(nm, kv, id, ifname, a, rangeID);
            && LastsOk(nm, kv')
            && Owned(nm, kv', id, ifname) ==
               Owned(nm, kv, id, ifname) + if Recognised(id, ifname) then {KeyOf(nm, a)} else {}
  {
    var kv' := ReserveIn(nm, kv, id, ifname, a, rangeID);
    LastsReserve(nm, kv, id, ifname, a, rangeID);
    LastKeyNotOwned(nm, kv, id, ifname, rangeID);
    LastKeyNotOwned(nm, kv', id, ifname, rangeID);
    KeysApart(nm, a, a, rangeID, rangeID);
    KeysSlashed(nm, a, rangeID);
    hide CodecOk, KeyOf, LastKey, Owner, Trim, LastsOk;
  }

  lemma LastsReserve(nm: Naming, kv: Keys, id: string, ifname: string, a: Addr, rangeID: string)
    requires CodecOk(nm) && LastsOk(nm, kv)
    ensures LastsOk(nm, ReserveIn(nm, kv, id, ifname, a, rangeID))
  {
    hide CodecOk, KeyOf, LastKey, Owner, Trim;
    var kv' := ReserveIn(nm, kv, id, ifname, a, rangeID);
    forall r | LastKey(nm, r) in kv' ensures exists b: Addr :: kv'[LastKey(nm, r)] == nm.text(b) {
      KeysApart(nm, a, a, r, rangeID);
      if LastKey(nm, r) == LastKey(nm, rangeID) {
        assert kv'[LastKey(nm, r)] == nm.text(a);
      } else {
        assert kv'[LastKey(nm, r)] == kv[LastKey(nm, r)];
      }
    }
  }

  lemma OwnedDrop(nm: Naming, kv: Keys, id: string, ifname: string, dropped: set<string>)
    ensures Owned(nm, kv - dropped, id, ifname) == Owned(nm, kv, id, ifname) - dropped
    ensures LastsOk(nm, kv) ==> LastsOk(nm, kv - dropped)
  {
    hide Owner, Trim;
  }

  // ------------------------------------------------------------------
  // Networks side by side

  /** The store of network `n` under the key prefix `base`. */
  function Network(base: string, n: string, text: Addr -> string, parse: string -> Option<Addr>): Naming {
    Naming(base + n, text, parse)
  }

  /** The name `m` is `n` or a longer name that starts with it. */
  predicate Extends(m: string, n: string) {
    n <= m
  }

  /** A tail of a key, behind the prefix that all networks share. */
  lemma TailListed(base: string, n: string, m: string, t: string)
    requires '/' !in n
    ensures base + n <= base + m + "/" + t <==> n <= m
    ensures '/' !in m ==> (base + n + "/" <= base + m + "/" + t <==> n == m)
  {
    var k := base + m + "/" + t;
    assert k[|base|..] == m + "/" + t;
    assert k[|base| + |m|] == '/';
    if base + n <= k {
      assert forall i :: 0 <= i < |n| ==> n[i] == (base + n)[|base| + i] == k[|base| + i];
      assert forall i :: 0 <= i < |n| ==> n[i] == k[|base| + i] && n[i] in n;
    }
    if n <= m { assert k[..|base + n|] == base + n; }
    if base + n + "/" <= k {
      assert (base + n + "/")[|base| + |n|] == '/' == k[|base| + |n|];
      assert '/' !in m ==> forall i :: 0 <= i < |m| ==> m[i] == k[|base| + i] && m[i] in m;
    }
  }

  /** Listing network `n` returns a key of network `m` exactly if the name `m` extends `n`. */
  lemma ListedExact(base: string, n: string, m: string, text: Addr -> string, parse: string -> Option<Addr>, k: string)
    requires '/' !in n && KeyIn(Network(base, m, text, parse), k)
    ensures Listed(Network(base, n, text, parse), k) <==> Extends(m, n)
    ensures '/' !in m ==> (KeyIn(Network(base, n, text, parse), k) ==> n == m)
  {
    var nm, mm := Network(base, n, text, parse), Network(base, m, text, parse);
    var t :| k == base + m + "/" + t;
    TailListed(base, n, m, t);
    if KeyIn(nm, k) {
      var u :| k == base + n + "/" + u;
      assert k[..|base + n + "/"|] == base + n + "/";
    }
  }

  /**
   * A release in network `n` reaches a reservation in `m` exactly if the name extends `n` and the
   * container matches.
   */
  lemma CrossNetworkExact(base: string, n: string, m: string, text: Addr -> string, parse: string -> Option<Addr>,
                          kv: Keys, a: Addr, h: Holder, id: string, ifname: string)
    requires '/' !in n && CleanId(h.id) && OneLine(Trim(id))
    requires KeyOf(Network(base, m, text, parse), a) in kv
    requires kv[KeyOf(Network(base, m, text, parse), a)] == Owner(h.id, h.ifname)
    ensures KeyOf(Network(base, m, text, parse), a) in Owned(Network(base, n, text, parse), kv, id, ifname)
            <==> Extends(m, n) && Finds(id, ifname, h)
  {
    hide Owner, Trim, OneLine, CleanId, Finds;
    ListedExact(base, n, m, text, parse, KeyOf(Network(base, m, text, parse), a));
    FindsExact(id, ifname, h);
    hide KeyOf, KeyIn;
  }

  /** All keys belong to these networks. */
  ghost predicate KeysFrom(base: string, names: set<string>, text: Addr -> string, parse: string -> Option<Addr>,
                           kv: Keys) {
    forall k :: k in kv ==> exists m :: m in names && KeyIn(Network(base, m, text, parse), k)
  }

  /** Each of these networks has a key. */
  ghost predicate KeyInEach(base: string, names: set<string>, text: Addr -> string, parse: string -> Option<Addr>,
                            kv: Keys) {
    forall m :: m in names ==> '/' !in m && exists k :: k in kv && KeyIn(Network(base, m, text, parse), k)
  }

  /** A network lists its own keys only exactly if no other network's name extends its own. */
  lemma OwnKeysExact(base: string, names: set<string>, n: string, text: Addr -> string, parse: string -> Option<Addr>,
                     kv: Keys)
    requires '/' !in n && KeysFrom(base, names, text, parse, kv) && KeyInEach(base, names, text, parse, kv)
    ensures OwnKeysOnly(Network(base, n, text, parse), kv) <==> forall m :: m in names && Extends(m, n) ==> m == n
  {
    hide KeyIn, Listed, Network, Extends, OwnKeysOnly, KeysFrom, KeyInEach;
    if m :| m in names && Extends(m, n) && m != n {
      OthersListed(base, names, n, m, text, parse, kv);
    } else {
      OthersNotListed(base, names, n, text, parse, kv);
    }
  }

  lemma OthersListed(base: string, names: set<string>, n: string, m: string,
                     text: Addr -> string, parse: string -> Option<Addr>, kv: Keys)
    requires '/' !in n && KeyInEach(base, names, text, parse, kv) && m in names && Extends(m, n) && m != n
    ensures !OwnKeysOnly(Network(base, n, text, parse), kv)
  {
    hide KeyIn, Listed, Network, Extends;
    var k :| k in kv && KeyIn(Network(base, m, text, parse), k);
    ListedExact(base, n, m, text, parse, k);
  }

  lemma OthersNotListed(base: string, names: set<string>, n: string, text: Addr -> string,
                        parse: string -> Option<Addr>, kv: Keys)
    requires '/' !in n && KeysFrom(base, names, text, parse, kv) && forall m :: m in names && Extends(m, n) ==> m == n
    ensures OwnKeysOnly(Network(base, n, text, parse), kv)
  {
    hide KeyIn, Listed, Network, Extends;
    forall k | k in kv && Listed(Network(base, n, text, parse), k) ensures KeyIn(Network(base, n, text, parse), k) {
      var m :| m in names && KeyIn(Network(base, m, text, parse), k);
      ListedExact(base, n, m, text, parse, k);
    }
  }

  /** Listing "/p/net" also returns the keys of "/p/net1", so a release there deletes them. */
  lemma CrossNetwork(text: Addr -> string, parse: string -> Option<Addr>)
    ensures var nm := Naming("/p/net", text, parse);
            var kv := map["/p/net1/10.0.0.2" := "c\r\neth0"];
            Owned(nm, kv, "c", "eth0") == {"/p/net1/10.0.0.2"}
  {
    var nm := Naming("/p/net", text, parse);
    var k := "/p/net1/10.0.0.2";
    assert nm.prefix == k[..6];
    assert Trim("c") == "c" by { TrimTrimmed("c"); }
    TrimTrimmed("c\r\neth0");
    assert Owner("c", "eth0") == "c\r\neth0";
  }
}
