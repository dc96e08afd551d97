/**
 * The request text of Add in pkg/daemon/handler.go: what cutting it at its commas gives, and which
 * addresses it asks for.
 */
module RequestTexts {
  import opened Addrs
  import opened Keyspace
  import opened RangeWalk
  import opened AddRelation
  import opened Daemon

  /** The pieces with the separator between them. */
  function Join(pieces: seq<string>, sep: char): string {
    if pieces == [] then ""
    else if |pieces| == 1 then pieces[0]
    else pieces[0] + [sep] + Join(pieces[1..], sep)
  }

  ghost predicate Whole(pieces: seq<string>, sep: char) {
    forall p :: p in pieces ==> sep !in p
  }

  /** Cutting loses nothing and cuts everywhere: the pieces hold no separator and join to the text. */
  lemma {:induction false} SplitJoins(s: string, sep: char)
    ensures Whole(Split(s, sep), sep) && Join(Split(s, sep), sep) == s
  {
    if s != "" {
      var rest, pieces := Split(s[1..], sep), Split(s, sep);
      SplitJoins(s[1..], sep);
      assert s == [s[0]] + s[1..];
      if s[0] == sep {
        assert pieces[1..] == rest;
      } else {
        JoinHead(rest[0], rest[1..], s[0], sep);
        assert rest == [rest[0]] + rest[1..];
        assert rest[0] in rest;
      }
    }
  }

  lemma JoinHead(p: string, tail: seq<string>, c: char, sep: char)
    ensures Join([[c] + p] + tail, sep) == [c] + Join([p] + tail, sep)
  {
    var l, m := [[c] + p] + tail, [p] + tail;
    assert l[1..] == tail == m[1..];
    if tail != [] {
      assert ([c] + p) + [sep] + Join(tail, sep) == [c] + (p + [sep] + Join(tail, sep));
    }
  }

  /** No other list of pieces does that: joining whole pieces and cutting again gives them back. */
  lemma {:induction false} JoinSplits(pieces: seq<string>, sep: char)
    requires pieces != [] && Whole(pieces, sep)
    ensures Split(Join(pieces, sep), sep) == pieces
    decreases |pieces|
  {
    assert pieces[0] in pieces;
    if |pieces| == 1 {
      SplitWhole(pieces[0], sep);
    } else {
      forall p | p in pieces[1..] ensures sep !in p { assert p in pieces; }
      JoinSplits(pieces[1..], sep);
      SplitAt(pieces[0], Join(pieces[1..], sep), sep);
      assert pieces == [pieces[0]] + pieces[1..];
    }
  }

  lemma {:induction false} SplitWhole(p: string, sep: char)
    requires sep !in p
    ensures Split(p, sep) == [p]
  {
    if p != "" {
      assert p[0] in p && forall c :: c in p[1..] ==> c in p;
      SplitWhole(p[1..], sep);
      assert p == [p[0]] + p[1..];
    }
  }

  lemma {:induction false} SplitAt(p: string, t: string, sep: char)
    requires sep !in p
    ensures Split(p + [sep] + t, sep) == [p] + Split(t, sep)
  {
    var s := p + [sep] + t;
    if p == "" {
      assert s[0] == sep && s[1..] == t;
    } else {
      assert p[0] in p && forall c :: c in p[1..] ==> c in p;
      SplitAt(p[1..], t, sep);
      assert s[0] == p[0] && s[1..] == p[1..] + [sep] + t;
      assert p == [p[0]] + p[1..];
    }
  }

  /** The request text that names these addresses. */
  function Texts(nm: Naming, addrs: seq<Addr>): (ts: seq<string>)
    ensures |ts| == |addrs| && forall i :: 0 <= i < |addrs| ==> ts[i] == nm.text(addrs[i])
  {
    seq(|addrs|, i requires 0 <= i < |addrs| => nm.text(addrs[i]))
  }

  /** A text that names addresses asks for exactly these, each by its own text. */
  lemma AsksFor(nm: Naming, addrs: seq<Addr>)
    requires CodecOk(nm) && addrs != []
    ensures var reqs := RequestMap(Split(Join(Texts(nm, addrs), ','), ','), nm.parse);
            && (forall t :: t in reqs <==> exists i :: 0 <= i < |addrs| && t == nm.text(addrs[i]))
            && forall i :: 0 <= i < |addrs| ==> nm.text(addrs[i]) in reqs && reqs[nm.text(addrs[i])] == Some(addrs[i])
  {
    var ts := Texts(nm, addrs);
    forall t | t in ts ensures ',' !in t {
      var i :| 0 <= i < |ts| && ts[i] == t;
      TextHasNoComma(nm, addrs[i]);
    }
    JoinSplits(ts, ',');
    forall i | 0 <= i < |addrs| ensures nm.text(addrs[i]) in ts && nm.parse(nm.text(addrs[i])) == Some(addrs[i]) {
      assert ts[i] in ts;
      ParsesBack(nm, addrs[i]);
    }
    hide CodecOk, Split, Join;
  }

  lemma TextHasNoComma(nm: Naming, a: Addr)
    requires CodecOk(nm)
    ensures ',' !in nm.text(a)
  {
    assert nm.parse(nm.text(a)) == Some(a);
    assert !AddressChar(',');
  }

  /** Any piece of any text is a request, with the address it parses to if it does. */
  lemma AsksForPieces(s: string, parse: string -> Option<Addr>, pieces: seq<string>)
    requires pieces != [] && Whole(pieces, ',') && Join(pieces, ',') == s
    ensures var reqs := RequestMap(Split(s, ','), parse);
            && (forall t :: t in reqs <==> t in pieces)
            && forall t :: t in pieces ==> reqs[t] == parse(t)
  {
    JoinSplits(pieces, ',');
    hide Split, Join;
  }

  /** A successful Add for such a text has granted every address it names. */
  lemma AllGranted(nm: Naming, kv: Keys, allocs: seq<Alloc>, id: string, ifname: string, addrs: seq<Addr>,
                   picks: seq<Option<string>>, granted: seq<Addr>, i: nat)
    requires CodecOk(nm) && AllocsOk(allocs) && i < |addrs|
    requires var reqs := RequestMap(Split(Join(Texts(nm, addrs), ','), ','), nm.parse);
             Loop(nm, kv, allocs, reqs, id, ifname, picks, granted) && Succeeded(allocs, reqs, picks, granted)
    ensures addrs[i] in granted
  {
    hide CodecOk, AllocsOk, Loop, Succeeded, Split, Join, RequestMap;
    var reqs := RequestMap(Split(Join(Texts(nm, addrs), ','), ','), nm.parse);
    AsksFor(nm, addrs);
    RequestedGranted(nm, kv, allocs, reqs, id, ifname, picks, granted, nm.text(addrs[i]));
  }
}
