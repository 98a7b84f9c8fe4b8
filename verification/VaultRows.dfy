/** Which rows harvests and logins leave: every cookie in its last version. */
module VaultRows {
  import opened Options
  import opened Tier1Jar
  import opened Lists
  import Recency
  import opened SessionRows
  import opened SessionVault
  import opened RouteMemory
  import opened GhostStore
  import opened VaultProtocol
  import opened VaultInvariant
  import opened VaultErasure
  import opened VaultLogin

  predicate IsFor(c: Cookie, host: string) { FoldDomain(c.domain) == host }

  /** The cookies of a harvest that an automatic host takes. */
  function WorthyFor(g: Hygiene, host: string, now: nat): Choice { c => Worthy(g, c, now) && IsFor(c, host) }

  /** The cookies of a harvest that touch a host. */
  function UsableFor(g: Hygiene, host: string, now: nat): Choice { c => Usable(g, c, now) && IsFor(c, host) }

  /** The cookies of a login that go to a host. */
  function AllFor(host: string): Choice { c => IsFor(c, host) }

  // ---- Explicit hosts take refreshes only ----

  lemma {:induction false} HarvestSnoc(g: Hygiene, v: Vault, cs: seq<Cookie>, c: Cookie, now: nat)
    ensures HarvestAll(g, v, cs + [c], now) == HarvestOne(g, HarvestAll(g, v, cs, now), c, now)
    decreases |cs|
  {
    if cs == [] {
      assert cs + [c] == [c] && [c][1..] == [];
      assert HarvestAll(g, HarvestOne(g, v, c, now), [], now) == HarvestOne(g, v, c, now);
    } else {
      assert (cs + [c])[0] == cs[0] && (cs + [c])[1..] == cs[1..] + [c];
      HarvestSnoc(g, HarvestOne(g, v, cs[0], now), cs[1..], c, now);
    }
  }

  lemma {:induction false} StaysExplicit(g: Hygiene, v: Vault, batch: seq<Cookie>, now: nat, host: string)
    requires At(v, host).explicit
    ensures var p := At(HarvestAll(g, v, batch, now), host);
      p.explicit && p.cookies == Renewed(At(v, host).cookies, batch, UsableFor(g, host, now))
  {
    if batch != [] {
      var n := |batch| - 1;
      assert batch == batch[..n] + [batch[n]];
      StaysExplicit(g, v, batch[..n], now, host);
      HarvestSnoc(g, v, batch[..n], batch[n], now);
    }
  }

  // ---- Automatic hosts are queues of fifty ----

  /** Every row is the last version of its cookie, or as it was if the batch
      brings none; a second row of one cookie is as it was. */
  ghost predicate Fresh(cs: seq<Cookie>, batch: seq<Cookie>, ok: Choice, rows: seq<Cookie>)
  {
    forall i :: 0 <= i < |rows| ==>
      var last := Latest(batch, ok, IdOf(rows[i]));
      if Leads(rows, i) && last.Some? then rows[i] == last.value else rows[i] in cs
  }

  function Ids(cs: seq<Cookie>): seq<RowId> { seq(|cs|, i requires 0 <= i < |cs| => IdOf(cs[i])) }

  /** A cookie the list does not know joins in front and the last of fifty
      leaves; a known one keeps its place. */
  function Joining(ids: seq<RowId>, id: RowId): seq<RowId>
  {
    Recency.Capped(if id in ids then ids else [id] + ids, 50)
  }

  /** The cookies that touch the host, `seen`, cut it to fifty even when it
      takes none of them. */
  function Queue(ids: seq<RowId>, batch: seq<Cookie>, seen: Choice, ok: Choice): seq<RowId>
  {
    if batch == [] then ids
    else
      var n := |batch| - 1;
      var q := Queue(ids, batch[..n], seen, ok);
      if ok(batch[n]) then Joining(q, IdOf(batch[n]))
      else if seen(batch[n]) then Recency.Capped(q, PER_DOMAIN_MAX)
      else q
  }

  lemma {:induction false} KnownIds(cs: seq<Cookie>, id: RowId)
    ensures id in Ids(cs) <==> FindRow(cs, id).Some?
  {
    var r := FindRow(cs, id);
    if r.Some? { assert Ids(cs)[r.value] == id; }
  }

  lemma {:induction false} QueueStep(ids: seq<RowId>, done: seq<Cookie>, seen: Choice, ok: Choice, rows: seq<Cookie>, c: Cookie)
    requires Ids(rows) == Queue(ids, done, seen, ok) && (ok(c) ==> seen(c))
    ensures Ids(if !seen(c) then rows else Recency.Capped(if ok(c) then RefreshOrPush(rows, c) else rows, PER_DOMAIN_MAX))
         == Queue(ids, done + [c], seen, ok)
  {
    assert (done + [c])[..|done|] == done;
    IdsPushed(rows, c);
    IdsCapped(if ok(c) then RefreshOrPush(rows, c) else rows);
  }

  lemma {:induction false} IdsPushed(rows: seq<Cookie>, c: Cookie)
    ensures Ids(RefreshOrPush(rows, c)) == if IdOf(c) in Ids(rows) then Ids(rows) else [IdOf(c)] + Ids(rows)
  {
    KnownIds(rows, IdOf(c));
    assert Ids(RefreshRow(rows, c)) == Ids(rows);
    assert Ids([c] + rows) == [IdOf(c)] + Ids(rows);
  }

  lemma {:induction false} IdsCapped(rows: seq<Cookie>)
    ensures Ids(Recency.Capped(rows, PER_DOMAIN_MAX)) == Recency.Capped(Ids(rows), PER_DOMAIN_MAX)
  {
  }

  lemma {:induction false} FreshStep(cs: seq<Cookie>, batch: seq<Cookie>, ok: Choice, rows: seq<Cookie>, c: Cookie)
    requires Fresh(cs, batch, ok, rows)
    ensures Fresh(cs, batch + [c], ok, if ok(c) then RefreshOrPush(rows, c) else rows)
  {
    var at := FindRow(rows, IdOf(c));
    forall i | 0 <= i < |rows|
      ensures Latest(batch + [c], ok, IdOf(rows[i])) == if Takes(ok, c, IdOf(rows[i])) then Some(c) else Latest(batch, ok, IdOf(rows[i]))
    {
      LatestSnoc(batch, ok, c, IdOf(rows[i]));
    }
    LatestSnoc(batch, ok, c, IdOf(c));
    if ok(c) {
      if at.Some? { FreshRefresh(cs, batch, ok, rows, c); } else { FreshPush(cs, batch, ok, rows, c); }
    }
  }

  lemma {:induction false} FreshRefresh(cs: seq<Cookie>, batch: seq<Cookie>, ok: Choice, rows: seq<Cookie>, c: Cookie)
    requires Fresh(cs, batch, ok, rows) && ok(c) && FindRow(rows, IdOf(c)).Some?
    ensures Fresh(cs, batch + [c], ok, RefreshRow(rows, c))
  {
    var k, rows' := FindRow(rows, IdOf(c)).value, RefreshRow(rows, c);
    forall i | 0 <= i < |rows'|
      ensures var last := Latest(batch + [c], ok, IdOf(rows'[i]));
        if Leads(rows', i) && last.Some? then rows'[i] == last.value else rows'[i] in cs
    {
      LatestSnoc(batch, ok, c, IdOf(rows'[i]));
      assert forall j :: 0 <= j < |rows| ==> IdOf(rows'[j]) == IdOf(rows[j]);
      assert Leads(rows', i) <==> Leads(rows, i);
      if i != k && IdOf(rows[i]) == IdOf(c) { assert !Leads(rows, i); }
    }
  }

  lemma {:induction false} FreshPush(cs: seq<Cookie>, batch: seq<Cookie>, ok: Choice, rows: seq<Cookie>, c: Cookie)
    requires Fresh(cs, batch, ok, rows) && ok(c) && FindRow(rows, IdOf(c)).None?
    ensures Fresh(cs, batch + [c], ok, [c] + rows)
  {
    var rows' := [c] + rows;
    forall i | 0 <= i < |rows'|
      ensures var last := Latest(batch + [c], ok, IdOf(rows'[i]));
        if Leads(rows', i) && last.Some? then rows'[i] == last.value else rows'[i] in cs
    {
      LatestSnoc(batch, ok, c, IdOf(rows'[i]));
      if i > 0 {
        assert rows'[i] == rows[i - 1];
        assert Leads(rows', i) <==> Leads(rows, i - 1) by {
          assert rows'[0] == c && forall j :: 0 < j < |rows'| ==> rows'[j] == rows[j - 1];
          if Leads(rows', i) {
            forall j | 0 <= j < i - 1 ensures IdOf(rows[j]) != IdOf(rows[i - 1]) { assert rows'[j + 1] == rows[j]; }
          }
        }
      }
    }
  }

  lemma {:induction false} FreshPrefix(cs: seq<Cookie>, batch: seq<Cookie>, ok: Choice, rows: seq<Cookie>, n: nat)
    requires Fresh(cs, batch, ok, rows) && n <= |rows|
    ensures Fresh(cs, batch, ok, rows[..n])
  {
    forall i | 0 <= i < n ensures Leads(rows[..n], i) <==> Leads(rows, i) {
    }
  }

  lemma {:induction false} FreshCapped(cs: seq<Cookie>, batch: seq<Cookie>, ok: Choice, rows: seq<Cookie>)
    requires Fresh(cs, batch, ok, rows)
    ensures Fresh(cs, batch, ok, Recency.Capped(rows, PER_DOMAIN_MAX))
  {
    if |rows| > PER_DOMAIN_MAX { FreshPrefix(cs, batch, ok, rows, PER_DOMAIN_MAX); }
  }

  /** One harvested cookie on an automatic host. */
  lemma {:induction false} AutomaticStep(g: Hygiene, v: Vault, c: Cookie, now: nat, host: string)
    requires !At(v, host).explicit
    ensures var v', rows := HarvestOne(g, v, c, now), At(v, host).cookies;
      && !At(v', host).explicit
      && At(v', host).cookies == if !UsableFor(g, host, now)(c) then rows
         else Recency.Capped(if WorthyFor(g, host, now)(c) then RefreshOrPush(rows, c) else rows, PER_DOMAIN_MAX)
  {
  }

  lemma {:induction false} StaysAutomatic(g: Hygiene, v: Vault, batch: seq<Cookie>, now: nat, host: string)
    requires !At(v, host).explicit
    ensures !At(HarvestAll(g, v, batch, now), host).explicit
    decreases |batch|
  {
    if batch != [] {
      StaysAutomatic(g, HarvestOne(g, v, batch[0], now), batch[1..], now, host);
    }
  }

  lemma {:induction false} StaysFresh(g: Hygiene, v: Vault, batch: seq<Cookie>, now: nat, host: string)
    requires !At(v, host).explicit
    ensures Fresh(At(v, host).cookies, batch, WorthyFor(g, host, now), At(HarvestAll(g, v, batch, now), host).cookies)
  {
    if batch != [] {
      var n, cs, ok := |batch| - 1, At(v, host).cookies, WorthyFor(g, host, now);
      var u, c := HarvestAll(g, v, batch[..n], now), batch[n];
      var rows := At(u, host).cookies;
      assert batch == batch[..n] + [c];
      StaysFresh(g, v, batch[..n], now, host);
      StaysAutomatic(g, v, batch[..n], now, host);
      HarvestSnoc(g, v, batch[..n], c, now);
      AutomaticStep(g, u, c, now, host);
      FreshStep(cs, batch[..n], ok, rows, c);
      FreshCapped(cs, batch, ok, if ok(c) then RefreshOrPush(rows, c) else rows);
    }
  }

  lemma {:induction false} StaysQueue(g: Hygiene, v: Vault, batch: seq<Cookie>, now: nat, host: string)
    requires !At(v, host).explicit
    ensures Ids(At(HarvestAll(g, v, batch, now), host).cookies)
         == Queue(Ids(At(v, host).cookies), batch, UsableFor(g, host, now), WorthyFor(g, host, now))
  {
    if batch != [] {
      var n := |batch| - 1;
      var u, c := HarvestAll(g, v, batch[..n], now), batch[n];
      assert batch == batch[..n] + [c];
      StaysQueue(g, v, batch[..n], now, host);
      StaysAutomatic(g, v, batch[..n], now, host);
      HarvestSnoc(g, v, batch[..n], c, now);
      AutomaticStep(g, u, c, now, host);
      QueueStep(Ids(At(v, host).cookies), batch[..n], UsableFor(g, host, now), WorthyFor(g, host, now), At(u, host).cookies, c);
    }
  }

  /** As long as fifty hold them all, nothing is cut. */
  lemma {:induction false} StaysWhole(g: Hygiene, v: Vault, batch: seq<Cookie>, now: nat, host: string)
    requires !At(v, host).explicit
    requires |At(v, host).cookies| + |Arrived(At(v, host).cookies, batch, WorthyFor(g, host, now))| <= PER_DOMAIN_MAX
    ensures At(HarvestAll(g, v, batch, now), host).cookies == Pushed(At(v, host).cookies, batch, WorthyFor(g, host, now))
  {
    if batch != [] {
      var n, cs, ok := |batch| - 1, At(v, host).cookies, WorthyFor(g, host, now);
      assert batch == batch[..n] + [batch[n]];
      ArrivedGrows(cs, batch[..n], [batch[n]], ok);
      StaysWhole(g, v, batch[..n], now, host);
      StaysAutomatic(g, v, batch[..n], now, host);
      HarvestSnoc(g, v, batch[..n], batch[n], now);
      AutomaticStep(g, HarvestAll(g, v, batch[..n], now), batch[n], now, host);
      PushedLength(cs, batch[..n], ok);
      PushedLength(cs, batch, ok);
    }
  }

  lemma {:induction false} PushedLength(cs: seq<Cookie>, batch: seq<Cookie>, ok: Choice)
    ensures |Pushed(cs, batch, ok)| == |cs| + |Arrived(cs, batch, ok)|
  {
    PushedIsMerged(cs, batch, ok);
  }

  lemma {:induction false} ArrivedGrows(cs: seq<Cookie>, batch: seq<Cookie>, more: seq<Cookie>, ok: Choice)
    ensures |Arrived(cs, batch, ok)| <= |Arrived(cs, batch + more, ok)|
    decreases |more|
  {
    if more == [] {
      assert batch + more == batch;
    } else {
      var n := |more| - 1;
      ArrivedGrows(cs, batch, more[..n], ok);
      assert batch + more == batch + more[..n] + [more[n]];
      ArrivedSnoc(cs, batch + more[..n], ok, more[n]);
    }
  }

  // ---- What a harvest leaves on disk ----

  /** What a harvest makes of one automatic host, before the cap on all hosts. */
  ghost predicate HarvestedInto(g: Hygiene, cs: seq<Cookie>, batch: seq<Cookie>, now: nat, host: string, rows: seq<Cookie>)
  {
    var ok := WorthyFor(g, host, now);
    && Fresh(cs, batch, ok, rows)
    && Ids(rows) == Queue(Ids(cs), batch, UsableFor(g, host, now), ok)
    && (|cs| + |Arrived(cs, batch, ok)| <= PER_DOMAIN_MAX ==> Merged(cs, batch, ok, rows))
  }

  lemma {:induction false} HarvestAllLeaves(g: Hygiene, v: Vault, batch: seq<Cookie>, now: nat, host: string)
    ensures var cs, p := At(v, host).cookies, At(HarvestAll(g, v, batch, now), host);
      && p.explicit == At(v, host).explicit
      && if p.explicit then Refreshed(cs, batch, UsableFor(g, host, now), p.cookies) else HarvestedInto(g, cs, batch, now, host, p.cookies)
  {
    var cs := At(v, host).cookies;
    if At(v, host).explicit {
      StaysExplicit(g, v, batch, now, host);
      RenewedIsRefreshed(cs, batch, UsableFor(g, host, now));
    } else {
      var ok := WorthyFor(g, host, now);
      StaysAutomatic(g, v, batch, now, host);
      StaysFresh(g, v, batch, now, host);
      StaysQueue(g, v, batch, now, host);
      if |cs| + |Arrived(cs, batch, ok)| <= PER_DOMAIN_MAX {
        StaysWhole(g, v, batch, now, host);
        PushedIsMerged(cs, batch, ok);
      }
    }
  }

  lemma {:induction false} CapLeaves(v: Vault, order: seq<string>, host: string)
    requires EnumeratesAuto(v, order)
    ensures var p := At(CapVault(v, order), host);
      && p.explicit == At(v, host).explicit && p.cookies <= At(v, host).cookies
      && (p.explicit || Total(v, AutoHosts(v)) <= SESSION_MAX ==> p.cookies == At(v, host).cookies)
  {
    var total := Total(v, AutoHosts(v));
    if total > SESSION_MAX {
      TrimFrame(v, order, total - SESSION_MAX);
    }
  }

  /** What a harvest leaves in a host's vault on disk. An explicit host holds its
      rows, in place, each in the last usable version harvested. An automatic
      host holds the front of the list that takes the worthy ones: known rows
      refreshed where they stand, new ones in front, at most fifty; and the whole
      of it while all automatic hosts together hold at most 500. */
  lemma {:induction false} HarvestLeaves(g: Hygiene, w: World, t: Step, host: string)
    requires Inv(g, w) && t.HarvestCookies? && !Trivial(t) && NoEviction(t) && Lawful(g, w, t) && w.disk.vaultEpoch <= EPOCH_MAX - 2
    ensures var was, p := DrawerOf(g, VaultOf(w.disk.profiles), host, w.now), At(VaultOf(Next(g, w, t).disk.profiles), host);
      && p.explicit == was.explicit
      && (p.explicit ==> Refreshed(was.cookies, t.cookies, UsableFor(g, host, w.now), p.cookies))
      && (!p.explicit ==>
            && (exists uncut :: HarvestedInto(g, was.cookies, t.cookies, w.now, host, uncut) && p.cookies <= uncut
                  && (Total(Uncapped(g, w.disk, t, w.now), AutoHosts(Uncapped(g, w.disk, t, w.now))) <= SESSION_MAX ==> p.cookies == uncut)))
  {
    var v := Pruned(g, VaultOf(w.disk.profiles), w.now);
    var u := HarvestAll(g, v, t.cookies, w.now);
    LoadedVault(g, w.disk, w.now);
    HelperRows(g, w.disk, t, w.now);
    HarvestAllLeaves(g, v, t.cookies, w.now, host);
    CapLeaves(u, t.order, host);
    assert RowsAt(VaultOf(Next(g, w, t).disk.profiles), host) == RowsAt(CapVault(u, t.order), host);
  }

  /** So no cookie on disk after a harvest is older than what it brought: a row
      of an automatic host is the last worthy version harvested, or else stood
      there before. */
  lemma {:induction false} NoStaleRow(g: Hygiene, w: World, t: Step, host: string, c: Cookie)
    requires Inv(g, w) && t.HarvestCookies? && !Trivial(t) && NoEviction(t) && Lawful(g, w, t) && w.disk.vaultEpoch <= EPOCH_MAX - 2
    requires UniqueRows(DrawerOf(g, VaultOf(w.disk.profiles), host, w.now).cookies)
    requires var p := At(VaultOf(Next(g, w, t).disk.profiles), host); !p.explicit && c in p.cookies
    ensures var last := Latest(t.cookies, WorthyFor(g, host, w.now), IdOf(c));
      if last.Some? then c == last.value else c in DrawerOf(g, VaultOf(w.disk.profiles), host, w.now).cookies
    ensures forall x :: x in t.cookies && SameRow(x, c) && Worthy(g, x, w.now) && FoldDomain(x.domain) == host ==>
      exists i :: 0 <= i < |t.cookies| && t.cookies[i] == c
               && forall j :: i < j < |t.cookies| && SameRow(t.cookies[j], c) ==> !Worthy(g, t.cookies[j], w.now)
  {
    LastVersionOnly(g, w, t, host, c);
    LatestOfRow(t.cookies, g, host, w.now, c);
  }

  lemma {:induction false} LastVersionOnly(g: Hygiene, w: World, t: Step, host: string, c: Cookie)
    requires Inv(g, w) && t.HarvestCookies? && !Trivial(t) && NoEviction(t) && Lawful(g, w, t) && w.disk.vaultEpoch <= EPOCH_MAX - 2
    requires UniqueRows(DrawerOf(g, VaultOf(w.disk.profiles), host, w.now).cookies)
    requires var p := At(VaultOf(Next(g, w, t).disk.profiles), host); !p.explicit && c in p.cookies
    ensures var last := Latest(t.cookies, WorthyFor(g, host, w.now), IdOf(c));
      if last.Some? then c == last.value else c in DrawerOf(g, VaultOf(w.disk.profiles), host, w.now).cookies
  {
    HarvestLeaves(g, w, t, host);
    var was, p := DrawerOf(g, VaultOf(w.disk.profiles), host, w.now), At(VaultOf(Next(g, w, t).disk.profiles), host);
    var uncut :| HarvestedInto(g, was.cookies, t.cookies, w.now, host, uncut) && p.cookies <= uncut;
    NoStaleIn(g, was.cookies, t.cookies, w.now, host, uncut, c);
  }

  lemma {:induction false} LatestOfRow(batch: seq<Cookie>, g: Hygiene, host: string, now: nat, c: Cookie)
    ensures var last := Latest(batch, WorthyFor(g, host, now), IdOf(c));
      (exists x :: x in batch && SameRow(x, c) && Worthy(g, x, now) && FoldDomain(x.domain) == host) ==>
        && last.Some?
        && exists i :: 0 <= i < |batch| && batch[i] == last.value
                    && forall j :: i < j < |batch| && SameRow(batch[j], c) ==> !Worthy(g, batch[j], now)
  {
    var ok := WorthyFor(g, host, now);
    if x :| x in batch && SameRow(x, c) && Worthy(g, x, now) && FoldDomain(x.domain) == host {
      assert Takes(ok, x, IdOf(c));
      var last := Latest(batch, ok, IdOf(c));
      assert last.Some?;
      var i :| 0 <= i < |batch| && batch[i] == last.value && Takes(ok, batch[i], IdOf(c))
                && forall j :: i < j < |batch| ==> !Takes(ok, batch[j], IdOf(c));
      forall j | i < j < |batch| && SameRow(batch[j], c) ensures !Worthy(g, batch[j], now) {
        assert !Takes(ok, batch[j], IdOf(c)) && FoldDomain(batch[j].domain) == FoldDomain(c.domain) == FoldDomain(x.domain);
      }
    }
  }

  lemma {:induction false} NoStaleIn(g: Hygiene, cs: seq<Cookie>, batch: seq<Cookie>, now: nat, host: string, rows: seq<Cookie>, c: Cookie)
    requires UniqueRows(cs) && HarvestedInto(g, cs, batch, now, host, rows) && c in rows
    ensures var last := Latest(batch, WorthyFor(g, host, now), IdOf(c));
      if last.Some? then c == last.value else c in cs
  {
    QueueOnce(Ids(cs), batch, UsableFor(g, host, now), WorthyFor(g, host, now));
    var i :| 0 <= i < |rows| && rows[i] == c;
    forall j | 0 <= j < i ensures IdOf(rows[j]) != IdOf(c) {
      assert Ids(rows)[j] != Ids(rows)[i];
    }
  }

  lemma {:induction false} QueueOnce(ids: seq<RowId>, batch: seq<Cookie>, seen: Choice, ok: Choice)
    requires NoRepeats(ids)
    ensures NoRepeats(Queue(ids, batch, seen, ok))
  {
    if batch != [] {
      QueueOnce(ids, batch[..|batch| - 1], seen, ok);
    }
  }

  // ---- What a login leaves on disk ----

  function WithRows(v: Vault, host: string, rows: seq<Cookie>): Vault { v[host := At(v, host).(cookies := rows, explicit := true)] }

  /** The vault after these cookies, whatever the limits. */
  function RowsAfter(v: Vault, cs: seq<Cookie>): Vault
  {
    if cs == [] then v
    else
      var n := |cs| - 1;
      var u, host := RowsAfter(v, cs[..n]), FoldDomain(cs[n].domain);
      WithRows(u, host, RefreshOrAppend(At(u, host).cookies, cs[n]))
  }

  lemma {:induction false} RowsAfterQueued(v: Vault, cs: seq<Cookie>, host: string)
    ensures At(RowsAfter(v, cs), host).cookies == Queued(At(v, host).cookies, cs, AllFor(host))
  {
    if cs != [] {
      RowsAfterQueued(v, cs[..|cs| - 1], host);
    }
  }

  lemma {:induction false} RowsAfterAppended(v: Vault, cs: seq<Cookie>, host: string)
    ensures Appended(At(v, host).cookies, cs, AllFor(host), At(RowsAfter(v, cs), host).cookies)
  {
    RowsAfterQueued(v, cs, host);
    QueuedIsAppended(At(v, host).cookies, cs, AllFor(host));
  }

  lemma {:induction false} RowsAfterSnoc(v: Vault, cs: seq<Cookie>, c: Cookie)
    ensures var u, host := RowsAfter(v, cs), FoldDomain(c.domain);
      RowsAfter(v, cs + [c]) == WithRows(u, host, RefreshOrAppend(At(u, host).cookies, c))
  {
    assert (cs + [c])[..|cs|] == cs;
  }

  lemma {:induction false} RowsAfterExplicit(v: Vault, cs: seq<Cookie>, host: string)
    ensures At(RowsAfter(v, cs), host).explicit <==> At(v, host).explicit || LoginHost(cs, host)
  {
    if cs != [] {
      var n := |cs| - 1;
      RowsAfterExplicit(v, cs[..n], host);
      assert cs == cs[..n] + [cs[n]];
    }
  }

  lemma {:induction false} Onward(done: seq<Cookie>, todo: seq<Cookie>)
    requires todo != []
    ensures done + todo == (done + [todo[0]]) + todo[1..]
  {
  }

  /** A login that is stored stores the rows. */
  lemma {:induction false} StoredIsRows(g: Hygiene, v: Vault, done: seq<Cookie>, todo: seq<Cookie>, now: nat)
    requires LoginAll(g, RowsAfter(v, done), todo, now).Stored?
    ensures LoginAll(g, RowsAfter(v, done), todo, now).vault == RowsAfter(v, done + todo)
    decreases |todo|
  {
    if todo == [] {
      assert done + todo == done;
    } else {
      RowsAfterSnoc(v, done, todo[0]);
      Onward(done, todo);
      StoredIsRows(g, v, done + [todo[0]], todo[1..], now);
    }
  }

  /** What a stored login leaves in a host's vault on disk: known rows in place,
      each in the last version of the login, new ones behind in the order they
      came; and the hosts of the login are explicit. */
  lemma {:induction false} LoginLeaves(g: Hygiene, w: World, t: Step, host: string)
    requires StoresLogin(g, w, t)
    ensures var was, p := DrawerOf(g, VaultOf(w.disk.profiles), host, w.now), At(VaultOf(Next(g, w, t).disk.profiles), host);
      && Appended(was.cookies, t.cookies, AllFor(host), p.cookies)
      && (p.explicit <==> was.explicit || LoginHost(t.cookies, host))
  {
    var v := Pruned(g, VaultOf(w.disk.profiles), w.now);
    LoginReaches(g, w, t, host);
    RowsAfterAppended(v, t.cookies, host);
    RowsAfterExplicit(v, t.cookies, host);
    assert At(v, host).cookies == DrawerOf(g, VaultOf(w.disk.profiles), host, w.now).cookies;
  }

  lemma {:induction false} LoginReaches(g: Hygiene, w: World, t: Step, host: string)
    requires StoresLogin(g, w, t)
    ensures RowsAt(VaultOf(Next(g, w, t).disk.profiles), host)
         == RowsAt(RowsAfter(Pruned(g, VaultOf(w.disk.profiles), w.now), t.cookies), host)
  {
    var v := Pruned(g, VaultOf(w.disk.profiles), w.now);
    LoginIsStored(g, w, t);
    StoredRows(g, v, t.cookies, w.now, host);
    LoginOnDisk(g, w, t, host);
  }

  lemma {:induction false} StoredRows(g: Hygiene, v: Vault, cs: seq<Cookie>, now: nat, host: string)
    requires SessionVault.Login(g, v, cs, 0, now).Stored? && LoginAll(g, v, cs, now).Stored?
    ensures RowsAt(SessionVault.Login(g, v, cs, 0, now).vault, host) == RowsAt(RowsAfter(v, cs), host)
  {
    assert [] + cs == cs && RowsAfter(v, []) == v;
    StoredIsRows(g, v, [], cs, now);
    LoginVaultRows(g, v, cs, now, host);
  }

  lemma {:induction false} LoginOnDisk(g: Hygiene, w: World, t: Step, host: string)
    requires StoresLogin(g, w, t) && SessionVault.Login(g, Pruned(g, VaultOf(w.disk.profiles), w.now), t.cookies, 0, w.now).Stored?
    ensures RowsAt(VaultOf(Next(g, w, t).disk.profiles), host)
         == RowsAt(SessionVault.Login(g, Pruned(g, VaultOf(w.disk.profiles), w.now), t.cookies, 0, w.now).vault, host)
  {
    HelperRows(g, w.disk, t, w.now);
  }

  lemma {:induction false} LoginIsStored(g: Hygiene, w: World, t: Step)
    requires StoresLogin(g, w, t)
    ensures var v := Pruned(g, VaultOf(w.disk.profiles), w.now);
      SessionVault.Login(g, v, t.cookies, 0, w.now).Stored? && LoginAll(g, v, t.cookies, w.now).Stored?
  {
    LoadedVault(g, w.disk, w.now);
    LoadedFacts(g, w.disk, {}, w.now);
    LoginRowsOf(g, Pruned(g, VaultOf(w.disk.profiles), w.now), t.cookies, Loaded(g, w.disk, {}, w.now).vaultEpoch, w.now);
  }

  lemma {:induction false} LoginVaultRows(g: Hygiene, v: Vault, cs: seq<Cookie>, now: nat, host: string)
    requires SessionVault.Login(g, v, cs, 0, now).Stored?
    ensures RowsAt(SessionVault.Login(g, v, cs, 0, now).vault, host) == RowsAt(LoginAll(g, v, cs, now).vault, host)
  {
    BarrierKeepsRows(LoginAll(g, v, cs, now).vault, cs, 1);
    assert RowsAt(Barrier(LoginAll(g, v, cs, now).vault, cs, 1), host) == RowsAt(LoginAll(g, v, cs, now).vault, host);
  }

  /** A login re-arms the hosts in its scope: no wall streak holds them back. */
  lemma {:induction false} LoginRearms(g: Hygiene, w: World, t: Step, host: string)
    requires StoresLogin(g, w, t)
    ensures var ps, qs := w.disk.profiles, Next(g, w, t).disk.profiles;
      host in qs ==>
        var was := if host in ps then HealRoute(ps[host].route) else NEW_ROUTE;
        qs[host].route == if (exists c :: c in t.cookies && InScope(c, host)) then was.(wallFailStreak := 0, lastWallFail := 0) else was
  {
    var s := Loaded(g, w.disk, {}, w.now);
    LoadedFacts(g, w.disk, {}, w.now);
    EditReachesDisk(g, w.disk, t, w.now);
    AffectedIff(t.cookies, host);
    LoginRoutes(g, s, t.cookies, w.now, host);
  }

  lemma {:induction false} LoginRoutes(g: Hygiene, s: State, cs: seq<Cookie>, now: nat, host: string)
    requires LoginEdit(g, s, cs, now).Some?
    ensures var qs := LoginEdit(g, s, cs, now).value.profiles;
      host in qs ==>
        var was := ProfileOf(s.profiles, host).route;
        qs[host].route == if Affected(cs, host) then was.(wallFailStreak := 0, lastWallFail := 0) else was
  {
    var u := SessionVault.Login(g, VaultOf(s.profiles), cs, s.vaultEpoch, now).vault;
    RearmedRoute(WithVault(s.profiles, u), cs, now, host);
  }

  lemma {:induction false} RearmedRoute(ps: Profiles, cs: seq<Cookie>, now: nat, host: string)
    ensures host in RearmHosts(ps, cs, now) <==> host in ps
    ensures host in ps ==>
      RearmHosts(ps, cs, now)[host].route ==
        if Affected(cs, host) then ps[host].route.(wallFailStreak := 0, lastWallFail := 0) else ps[host].route
  {
  }

  // ---- Which logins are refused ----

  /** The host has room for the rows it holds and the ones that come. */
  predicate Roomy(v: Vault, cs: seq<Cookie>, host: string)
  {
    |At(v, host).cookies| + |Arrived(At(v, host).cookies, cs, AllFor(host))| <= 500
  }

  lemma {:induction false} NoneArrive(cs: seq<Cookie>, batch: seq<Cookie>, more: seq<Cookie>, ok: Choice)
    requires forall c :: c in more ==> !ok(c)
    ensures Arrived(cs, batch + more, ok) == Arrived(cs, batch, ok)
    decreases |more|
  {
    if more == [] {
      assert batch + more == batch;
    } else {
      var n := |more| - 1;
      NoneArrive(cs, batch, more[..n], ok);
      assert batch + more == batch + more[..n] + [more[n]];
      ArrivedSnoc(cs, batch + more[..n], ok, more[n]);
    }
  }

  /** The cookie is usable, and its host has room for all that come. */
  predicate FitsAll(g: Hygiene, v0: Vault, c: Cookie, all: seq<Cookie>, now: nat)
  {
    Usable(g, c, now) && Roomy(v0, all, FoldDomain(c.domain))
  }

  predicate AllFit(g: Hygiene, v0: Vault, all: seq<Cookie>, todo: seq<Cookie>, now: nat)
  {
    todo == [] || (FitsAll(g, v0, todo[0], all, now) && AllFit(g, v0, all, todo[1..], now))
  }

  lemma {:induction false} AllFitMeaning(g: Hygiene, v0: Vault, all: seq<Cookie>, todo: seq<Cookie>, now: nat)
    ensures AllFit(g, v0, all, todo, now) <==> forall c :: c in todo ==> FitsAll(g, v0, c, all, now)
  {
    if todo != [] {
      AllFitMeaning(g, v0, all, todo[1..], now);
      assert forall x :: x in todo <==> x == todo[0] || x in todo[1..];
    }
  }

  /** Whether the first of them fits shows when it is stored, or with the next
      cookie of its host. */
  lemma {:induction false} FirstFits(g: Hygiene, v0: Vault, done: seq<Cookie>, todo: seq<Cookie>, all: seq<Cookie>, now: nat)
    requires todo != [] && all == done + todo
    ensures AllFit(g, v0, all, todo, now) <==> FitsAll(g, v0, todo[0], done + [todo[0]], now) && AllFit(g, v0, all, todo[1..], now)
  {
    var c, host, rest := todo[0], FoldDomain(todo[0].domain), todo[1..];
    var cs := At(v0, host).cookies;
    assert all == done + [c] + rest;
    ArrivedGrows(cs, done + [c], rest, AllFor(host));
    AllFitMeaning(g, v0, all, rest, now);
    if !LoginHost(rest, host) {
      NoneArrive(cs, done + [c], rest, AllFor(host));
    }
  }

  lemma {:induction false} LoginFits(g: Hygiene, v: Vault, done: seq<Cookie>, todo: seq<Cookie>, all: seq<Cookie>, now: nat)
    requires all == done + todo
    ensures LoginAll(g, RowsAfter(v, done), todo, now).Stored? <==> AllFit(g, v, all, todo, now)
    decreases |todo|
  {
    if todo != [] {
      var c, rest := todo[0], todo[1..];
      LoginUnfolds(g, v, done, todo, now);
      FirstFits(g, v, done, todo, all, now);
      Onward(done, todo);
      LoginFits(g, v, done + [c], rest, all, now);
    }
  }

  lemma {:induction false} LoginUnfolds(g: Hygiene, v: Vault, done: seq<Cookie>, todo: seq<Cookie>, now: nat)
    requires todo != []
    ensures var c := todo[0];
      LoginAll(g, RowsAfter(v, done), todo, now) ==
        if FitsAll(g, v, c, done + [c], now) then LoginAll(g, RowsAfter(v, done + [c]), todo[1..], now) else Refused
  {
    var c, host := todo[0], FoldDomain(todo[0].domain);
    RowsAfterSnoc(v, done, c);
    RowsAfterAppended(v, done + [c], host);
  }

  /** A login is stored exactly when every cookie is usable, no host it names
      comes to hold more than 500 rows, all hosts together hold at most 5000, and
      the epoch has room for two steps. */
  lemma {:induction false} LoginStoredIff(g: Hygiene, v: Vault, cs: seq<Cookie>, epoch: nat, now: nat)
    ensures var all := LoginAll(g, v, cs, now);
      SessionVault.Login(g, v, cs, epoch, now).Stored? <==>
        && (forall c :: c in cs ==> FitsAll(g, v, c, cs, now))
        && (all.Stored? ==> Total(all.vault, all.vault.Keys) <= 5000) && epoch + 2 <= EPOCH_MAX
  {
    LoginFitsAll(g, v, cs, now);
  }

  lemma {:induction false} LoginFitsAll(g: Hygiene, v: Vault, cs: seq<Cookie>, now: nat)
    ensures LoginAll(g, v, cs, now).Stored? <==> forall c :: c in cs ==> FitsAll(g, v, c, cs, now)
  {
    assert cs == [] + cs && RowsAfter(v, []) == v;
    LoginFits(g, v, [], cs, cs, now);
    AllFitMeaning(g, v, cs, cs, now);
  }
}
