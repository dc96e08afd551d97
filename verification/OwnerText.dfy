/**
 * The texts stored in etcd by pkg/ipametcd/backend/etcd/backend.go: trimming, the owner value
 * `id CRLF ifname`, and when a stored value is recognised again.
 */
module OwnerText {

  /** The white space that strings.TrimSpace cuts. */
  predicate IsSpace(c: char) {
    || c == ' ' || c == '\t' || c == '\n' || c == '\r' || c == '\U{000B}' || c == '\U{000C}'
    || c == '\U{0085}' || c == '\U{00A0}' || c == '\U{1680}' || '\U{2000}' <= c <= '\U{200A}'
    || c == '\U{2028}' || c == '\U{2029}' || c == '\U{202F}' || c == '\U{205F}' || c == '\U{3000}'
  }

  /** By code points: six controls, the two spaces of Latin-1, and the space and line separators of Unicode. */
  lemma SpaceCodes(c: char)
    ensures var n := c as int;
            IsSpace(c) <==>
              || 9 <= n <= 13 || n == 32 || n == 133 || n == 160 || n == 5760 || 8192 <= n <= 8202
              || n in [8232, 8233, 8239, 8287, 12288]
  {
  }

  function TrimLeft(s: string): (t: string)
    ensures t != "" ==> !IsSpace(t[0])
  {
    if s != "" && IsSpace(s[0]) then TrimLeft(s[1..]) else s
  }

  function TrimRight(s: string): (t: string)
    ensures t <= s
    ensures t != "" ==> !IsSpace(t[|t| - 1])
  {
    if s != "" && IsSpace(s[|s| - 1]) then TrimRight(s[..|s| - 1]) else s
  }

  function Trim(s: string): (t: string)
    ensures t != "" ==> !IsSpace(t[0]) && !IsSpace(t[|t| - 1])
  {
    TrimRight(TrimLeft(s))
  }

  /** Trimming cuts white space at both ends and nothing else. */
  lemma TrimExact(s: string) returns (front: string, back: string)
    ensures s == front + Trim(s) + back && Blank(front) && Blank(back)
  {
    front := TrimLeftCuts(s);
    back := TrimRightCuts(TrimLeft(s));
  }

  lemma {:induction false} TrimLeftCuts(s: string) returns (front: string)
    ensures s == front + TrimLeft(s) && Blank(front)
  {
    front := "";
    if s != "" && IsSpace(s[0]) {
      var rest := TrimLeftCuts(s[1..]);
      front := [s[0]] + rest;
    }
  }

  lemma {:induction false} TrimRightCuts(s: string) returns (back: string)
    ensures s == TrimRight(s) + back && Blank(back)
  {
    back := "";
    if s != "" && IsSpace(s[|s| - 1]) {
      var rest := TrimRightCuts(s[..|s| - 1]);
      back := rest + [s[|s| - 1]];
    }
  }

  const LINE_BREAK := "\r\n"

  /** The value stored for a reserved address. */
  function Owner(id: string, ifname: string): string {
    Trim(id) + LINE_BREAK + ifname
  }

  predicate Blank(s: string) {
    forall c :: c in s ==> IsSpace(c)
  }

  lemma TrimTrimmed(s: string)
    requires s != "" ==> !IsSpace(s[0]) && !IsSpace(s[|s| - 1])
    ensures Trim(s) == s
  {
  }

  lemma {:induction false} TrimRightBlank(a: string, b: string)
    requires Blank(b) && (a != "" ==> !IsSpace(a[|a| - 1]))
    ensures TrimRight(a + b) == a
    decreases |b|
  {
    if b == "" {
      assert a + b == a;
    } else {
      var c := b[|b| - 1];
      assert c in b;
      assert (a + b)[..|a + b| - 1] == a + b[..|b| - 1];
      TrimRightBlank(a, b[..|b| - 1]);
    }
  }

  lemma {:induction false} TrimLeftBlank(s: string)
    ensures TrimLeft(s) == "" <==> Blank(s)
  {
    if s != "" {
      assert s[0] in s;
      if IsSpace(s[0]) {
        TrimLeftBlank(s[1..]);
        assert s == [s[0]] + s[1..];
      }
    }
  }

  lemma TrimBlank(s: string)
    ensures Trim(s) == "" <==> Blank(s)
  {
    TrimLeftBlank(s);
    var t := TrimLeft(s);
    if t != "" && TrimRight(t) == "" {
      RightOfNothing(t);
    }
  }

  lemma {:induction false} RightOfNothing(t: string)
    requires TrimRight(t) == ""
    ensures Blank(t)
  {
    if t != "" {
      RightOfNothing(t[..|t| - 1]);
      assert t == t[..|t| - 1] + [t[|t| - 1]];
    }
  }

  lemma {:induction false} TrimLeftShorter(s: string)
    ensures |TrimLeft(s)| <= |s|
  {
    if s != "" && IsSpace(s[0]) { TrimLeftShorter(s[1..]); }
  }

  /** What is left of a stored value when it is trimmed. */
  lemma TrimOwner(id: string, ifname: string)
    ensures Trim(Owner(id, ifname)) ==
            if Blank(id) then Trim(ifname)
            else if Blank(ifname) then Trim(id)
            else Trim(id) + LINE_BREAK + TrimRight(ifname)
  {
    hide TrimLeft, TrimRight, IsSpace, Blank;
    var a, v := Trim(id), Owner(id, ifname);
    TrimBlank(id);
    if a == "" {
      assert v == LINE_BREAK + ifname;
      BlankOwner(ifname);
    } else {
      assert v[0] == a[0];
      TrimLeftSame(v);
      assert v == a + (LINE_BREAK + ifname) == (a + LINE_BREAK) + ifname;
      if Blank(ifname) {
        BlankTail(ifname);
        TrimRightBlank(a, LINE_BREAK + ifname);
      } else {
        TrimRightTail(a + LINE_BREAK, ifname);
      }
    }
  }

  lemma TrimLeftSame(s: string)
    requires s != "" && !IsSpace(s[0])
    ensures TrimLeft(s) == s
  {
  }

  lemma BlankTail(s: string)
    requires Blank(s)
    ensures Blank(LINE_BREAK + s)
  {
  }

  lemma {:induction false} TrimRightTail(a: string, b: string)
    requires !Blank(b)
    ensures TrimRight(a + b) == a + TrimRight(b)
    decreases |b|
  {
    var c := b[|b| - 1];
    if IsSpace(c) {
      assert (a + b)[..|a + b| - 1] == a + b[..|b| - 1];
      assert b == b[..|b| - 1] + [c];
      TrimRightTail(a, b[..|b| - 1]);
    }
  }

  /** A stored value that a release for this container and interface deletes. */
  predicate Matches(v: string, id: string, ifname: string) {
    Trim(v) == Owner(id, ifname) || Trim(v) == Trim(id)
  }

  /** Whether a release by this id and interface name finds the value that Reserve stored for it. */
  predicate Recognised(id: string, ifname: string) {
    Matches(Owner(id, ifname), id, ifname)
  }

  /**
   * The stored value is recognised exactly when the interface name is blank, or the id is not
   * blank and the interface name does not end in white space.
   */
  lemma RecognisedExact(id: string, ifname: string)
    ensures Recognised(id, ifname) <==>
              Blank(ifname) || (!Blank(id) && !IsSpace(ifname[|ifname| - 1]))
  {
    TrimOwner(id, ifname);
    TrimBlank(id);
    if Blank(id) {
      BlankOwner(ifname);
    } else if !Blank(ifname) {
      TrimRightSame(ifname);
    }
  }

  lemma TrimRightSame(s: string)
    ensures TrimRight(s) == s <==> s == "" || !IsSpace(s[|s| - 1])
  {
  }

  lemma BlankOwner(ifname: string)
    ensures Trim(LINE_BREAK + ifname) == Trim(ifname)
    ensures |Trim(ifname)| <= |ifname| && (Trim(ifname) == "" <==> Blank(ifname))
  {
    var v := LINE_BREAK + ifname;
    var w := "\n" + ifname;
    assert v[0] == '\r' && v[1..] == w && w[0] == '\n' && w[1..] == ifname;
    assert TrimLeft(v) == TrimLeft(w) == TrimLeft(ifname);
    TrimLeftShorter(ifname);
    TrimBlank(ifname);
  }

  /** No line break inside, so the first one in an owner value ends the id. */
  predicate OneLine(id: string) {
    forall i :: 0 <= i < |id| - 1 ==> !(id[i] == '\r' && id[i + 1] == '\n')
  }

  /** The container and interface an address was reserved for. */
  datatype Holder = Holder(id: string, ifname: string)

  /** An id as containers have it: not blank, and without a line break. */
  predicate CleanId(id: string) {
    !Blank(id) && OneLine(Trim(id))
  }

  /** The same container, and either the same interface up to trailing space, or no interface was stored. */
  predicate Finds(id: string, ifname: string, h: Holder) {
    Trim(id) == Trim(h.id) && (Blank(h.ifname) || ifname == TrimRight(h.ifname))
  }

  /**
   * The releasing id runs on past the stored one: it spells out the whole stored value, or the part
   * of it up to a line break in the stored interface name, with the rest as interface name.
   */
  ghost predicate SpellsOut(id: string, ifname: string, h: Holder) {
    var t, tail := Trim(h.id), TrimRight(h.ifname);
    && !Blank(h.ifname)
    && (|| Trim(id) == t + LINE_BREAK + tail
        || exists x :: Trim(id) == t + LINE_BREAK + x && tail == x + LINE_BREAK + ifname)
  }

  /** The stored id runs on past the releasing one, which with its interface name spells out the stored value. */
  ghost predicate SpelledBy(id: string, ifname: string, h: Holder) {
    var t, tail := Trim(h.id), TrimRight(h.ifname);
    if Blank(h.ifname) then t == Trim(id) + LINE_BREAK + ifname
    else exists x :: t == Trim(id) + LINE_BREAK + x && ifname == x + LINE_BREAK + tail
  }

  predicate Trimmed(a: string) {
    a != "" ==> !IsSpace(a[|a| - 1])
  }

  /** Two splits of one text at a break: the same, or the second lies behind the first. */
  lemma Breaks(a: string, s: string, b: string, t: string)
    requires a + LINE_BREAK + s == b + LINE_BREAK + t && |a| <= |b| && Trimmed(b)
    ensures (a == b && s == t) || exists x :: b == a + LINE_BREAK + x && s == x + LINE_BREAK + t
  {
    var v := a + LINE_BREAK + s;
    assert v == b + LINE_BREAK + t;
    assert v[|a|] == '\r' && v[|a| + 1] == '\n';
    assert forall i :: 0 <= i < |b| ==> v[i] == b[i];
    assert |a| == |b| || |a| + 2 <= |b|;
    if |a| == |b| {
      assert a == v[..|a|] == b;
      assert s == v[|a| + 2..] == t;
    } else {
      var x := b[|a| + 2..];
      assert v[..|b|] == b && b[..|a|] == v[..|a|] == a;
      assert b == a + LINE_BREAK + x;
      assert s == v[|a| + 2..] == x + LINE_BREAK + t;
    }
  }

  lemma BreakInside(a: string, s: string)
    ensures !OneLine(a + LINE_BREAK + s)
  {
    var v := a + LINE_BREAK + s;
    assert v[|a|] == '\r' && v[|a| + 1] == '\n';
  }

  /**
   * A release by any id finds what was stored under an id that is not blank exactly if it is for that
   * container, and for that interface or none was stored, or if one of the two ids spells out the
   * value as far as a line break.
   */
  lemma MatchesExact(id: string, ifname: string, h: Holder)
    requires !Blank(h.id)
    ensures Matches(Owner(h.id, h.ifname), id, ifname)
            <==> Finds(id, ifname, h) || SpellsOut(id, ifname, h) || SpelledBy(id, ifname, h)
  {
    TrimOwner(h.id, h.ifname);
    hide Trim, TrimRight, TrimLeft, Blank;
    if !Blank(h.ifname) { ValueEqual(Trim(h.id), TrimRight(h.ifname), Trim(id), ifname); }
  }

  /** When two values are the same text. */
  lemma ValueEqual(a: string, s: string, b: string, t: string)
    requires Trimmed(a) && Trimmed(b)
    ensures a + LINE_BREAK + s == b + LINE_BREAK + t
            <==> || (a == b && s == t)
                 || (exists x :: b == a + LINE_BREAK + x && s == x + LINE_BREAK + t)
                 || (exists x :: a == b + LINE_BREAK + x && t == x + LINE_BREAK + s)
  {
    if a + LINE_BREAK + s == b + LINE_BREAK + t {
      if |a| <= |b| { Breaks(a, s, b, t); } else { Breaks(b, t, a, s); }
    }
    forall x { Regroup(a, x, t); }
    forall x { Regroup(b, x, s); }
  }

  lemma Regroup(a: string, x: string, t: string)
    ensures a + LINE_BREAK + (x + LINE_BREAK + t) == (a + LINE_BREAK + x) + LINE_BREAK + t
  {
  }

  /** For a releasing id without a line break nothing but its own container and interface is found. */
  lemma FindsExact(id: string, ifname: string, h: Holder)
    requires CleanId(h.id) && OneLine(Trim(id))
    ensures Matches(Owner(h.id, h.ifname), id, ifname) <==> Finds(id, ifname, h)
  {
    hide Matches, Finds, CleanId, OneLine;
    CleanMeans(h.id);
    MatchesExact(id, ifname, h);
    var t, tail := Trim(h.id), TrimRight(h.ifname);
    BreakInside(t, tail);
    BreakInside(Trim(id), ifname);
    forall x { BreakInside(t, x); }
    forall x { BreakInside(Trim(id), x); }
  }

  lemma CleanMeans(id: string)
    requires CleanId(id)
    ensures !Blank(id) && OneLine(Trim(id))
  {
  }

  /** With a blank id the interface name stands alone, and any container of that name finds it. */
  lemma BlankIdFound(id: string, ifname: string, h: Holder)
    requires Blank(h.id)
    ensures Matches(Owner(h.id, h.ifname), id, ifname)
            <==> Trim(h.ifname) == Owner(id, ifname) || Trim(h.ifname) == Trim(id)
  {
    TrimOwner(h.id, h.ifname);
  }

  /** An id with a line break finds the value it spells out, whoever stored it. */
  lemma LineBreakFinds(id: string, ifname: string, h: Holder)
    requires CleanId(h.id) && !Blank(h.ifname) && id == Trim(h.id) + LINE_BREAK + TrimRight(h.ifname)
    ensures Matches(Owner(h.id, h.ifname), id, ifname) && Trim(id) != Trim(h.id)
  {
    TrimOwner(h.id, h.ifname);
    TrimBlank(h.id);
    TrimRightTail(Trim(h.id) + LINE_BREAK, h.ifname);
    RightTail(h.ifname);
    TrimTrimmed(id);
    assert |id| > |Trim(h.id)|;
  }

  lemma RightTail(s: string)
    requires !Blank(s)
    ensures TrimRight(s) != ""
  {
    if TrimRight(s) == "" { RightOfNothing(s); }
  }

  /** With interface names that do not end in space, a release finds its own reservations and no others. */
  lemma FindsOwn(id: string, ifname: string, h: Holder)
    requires h.ifname != "" && !IsSpace(h.ifname[|h.ifname| - 1])
    ensures Finds(id, ifname, h) <==> Trim(id) == Trim(h.id) && ifname == h.ifname
  {
    TrimRightSame(h.ifname);
    assert h.ifname[|h.ifname| - 1] in h.ifname;
  }

  /** Owner values tell containers and interfaces apart. */
  lemma OwnerInjective(id1: string, if1: string, id2: string, if2: string)
    requires OneLine(Trim(id1)) && OneLine(Trim(id2))
    requires Owner(id1, if1) == Owner(id2, if2)
    ensures Trim(id1) == Trim(id2) && if1 == if2
  {
    ValueEqual(Trim(id1), if1, Trim(id2), if2);
    forall x { BreakInside(Trim(id1), x); }
    forall x { BreakInside(Trim(id2), x); }
  }
}
