/** Cookie records and the tier-1 whole-jar bucket of src/state.rs. */
module Tier1Jar {
  import opened Options
  import opened Text
  import Recency

  datatype Cookie = Cookie(
    name: string, value: string, domain: string, path: string, expiresAt: Option<nat>,
    secure: bool, httpOnly: bool, sameSite: string)

  /** (name, scope-folded domain, path): what makes two jar rows one cookie. */
  datatype JarKey = JarKey(name: string, host: string, path: string)

  const TIER1_COOKIE_MAX: nat := 500
  const TIER1_COOKIE_VALUE_MAX: nat := 4096

  /** Leading dots and letter case do not distinguish cookie scopes. */
  function FoldDomain(domain: string): string { AsciiLower(TrimStart(domain, IsDot)) }

  function KeyOf(c: Cookie): JarKey { JarKey(c.name, FoldDomain(c.domain), c.path) }

  predicate Expired(c: Cookie, now: nat) { c.expiresAt.Some? && c.expiresAt.value <= now }

  /** Rows the jar takes: scoped, non-empty, not oversized, not expired. */
  predicate Accepted(c: Cookie, now: nat)
  {
    c.domain != "" && c.value != "" && |c.value| <= TIER1_COOKIE_VALUE_MAX && !Expired(c, now)
  }

  function AcceptedRows(rows: seq<Cookie>, now: nat): seq<Cookie>
  {
    if rows == [] then []
    else (if Accepted(rows[0], now) then [rows[0]] else []) + AcceptedRows(rows[1..], now)
  }

  /** The jar without its first row of this key. */
  function DropFirst(jar: seq<Cookie>, k: JarKey): seq<Cookie>
  {
    if jar == [] then []
    else if KeyOf(jar[0]) == k then jar[1..]
    else [jar[0]] + DropFirst(jar[1..], k)
  }

  function Upsert(jar: seq<Cookie>, rows: seq<Cookie>): seq<Cookie>
    decreases |rows|
  {
    if rows == [] then jar else Upsert([rows[0]] + DropFirst(jar, KeyOf(rows[0])), rows[1..])
  }

  /** One flush: accepted rows move to the front, then the tail is cut. */
  function Merge(jar: seq<Cookie>, rows: seq<Cookie>, now: nat): seq<Cookie>
  {
    Recency.Capped(Upsert(jar, AcceptedRows(rows, now)), TIER1_COOKIE_MAX)
  }

  lemma {:induction false} DropFirstIsWithout(jar: seq<Cookie>, k: JarKey)
    requires Recency.DistinctKeys(jar, KeyOf)
    ensures DropFirst(jar, k) == Recency.Without(jar, KeyOf, k)
  {
    if jar != [] {
      if KeyOf(jar[0]) == k {
        assert !Recency.HasKey(jar[1..], KeyOf, k);
        Recency.WithoutAbsent(jar[1..], KeyOf, k);
      } else {
        DropFirstIsWithout(jar[1..], k);
      }
    }
  }

  /** On a jar without twins, flushing is touching each row's key. */
  lemma {:induction false} UpsertIsTouchAll(jar: seq<Cookie>, rows: seq<Cookie>)
    requires Recency.DistinctKeys(jar, KeyOf)
    ensures Upsert(jar, rows) == Recency.TouchAll(jar, KeyOf, rows)
    decreases |rows|
  {
    if rows != [] {
      DropFirstIsWithout(jar, KeyOf(rows[0]));
      Recency.TouchDistinct(jar, KeyOf, rows[0]);
      UpsertIsTouchAll(Recency.Touch(jar, KeyOf, rows[0]), rows[1..]);
    }
  }

  ghost predicate Valid(jar: seq<Cookie>)
  {
    |jar| <= TIER1_COOKIE_MAX && Recency.DistinctKeys(jar, KeyOf)
  }

  lemma {:induction false} MergeValid(jar: seq<Cookie>, rows: seq<Cookie>, now: nat)
    requires Recency.DistinctKeys(jar, KeyOf)
    ensures Valid(Merge(jar, rows, now))
  {
    UpsertIsTouchAll(jar, AcceptedRows(rows, now));
    Recency.TouchAllDistinct(jar, KeyOf, AcceptedRows(rows, now));
  }

  // ---- Runs of syncs on one snapshot ----

  datatype Flush = Flush(rows: seq<Cookie>, now: nat)

  function JarAfter(jar: seq<Cookie>, flushes: seq<Flush>): seq<Cookie>
  {
    if flushes == [] then jar
    else
      var n := |flushes| - 1;
      Merge(JarAfter(jar, flushes[..n]), flushes[n].rows, flushes[n].now)
  }

  /** Every accepted row of every flush, oldest first. */
  function AcceptedHistory(flushes: seq<Flush>): seq<Cookie>
  {
    if flushes == [] then []
    else
      var n := |flushes| - 1;
      AcceptedHistory(flushes[..n]) + AcceptedRows(flushes[n].rows, flushes[n].now)
  }

  /** Cutting after every flush loses nothing: the jar is what one uncut flush
      of the whole accepted history leaves in front. */
  lemma {:induction false} CutOnceIsEnough(jar: seq<Cookie>, flushes: seq<Flush>)
    requires Valid(jar)
    ensures JarAfter(jar, flushes) == Recency.Capped(Recency.TouchAll(jar, KeyOf, AcceptedHistory(flushes)), TIER1_COOKIE_MAX)
    ensures Valid(JarAfter(jar, flushes))
  {
    if flushes != [] {
      var n := |flushes| - 1;
      var before, batch := AcceptedHistory(flushes[..n]), AcceptedRows(flushes[n].rows, flushes[n].now);
      CutOnceIsEnough(jar, flushes[..n]);
      Recency.TouchAllDistinct(jar, KeyOf, before);
      Recency.CapTouchAll(Recency.TouchAll(jar, KeyOf, before), KeyOf, batch, TIER1_COOKIE_MAX);
      UpsertIsTouchAll(JarAfter(jar, flushes[..n]), batch);
      Recency.TouchAllSplit(jar, KeyOf, before, batch);
      MergeValid(JarAfter(jar, flushes[..n]), flushes[n].rows, flushes[n].now);
    }
  }

  /** From any jar a snapshot can load, any flushes leave the first 500 rows of
      the history, the loaded jar being its oldest part, that no later row
      supersedes, latest first. */
  lemma {:induction false} JarIsMostRecentDistinct(jar: seq<Cookie>, flushes: seq<Flush>)
    requires Valid(jar)
    ensures JarAfter(jar, flushes)
         == Recency.Capped(Recency.MostRecentDistinct(OldestFirst(jar) + AcceptedHistory(flushes), KeyOf), 500)
  {
    var loaded, h := OldestFirst(jar), AcceptedHistory(flushes);
    CutOnceIsEnough(jar, flushes);
    OldestFirstIsJar(jar);
    Recency.TouchAllIsMostRecent(loaded + h, KeyOf);
    Recency.TouchAllSplit([], KeyOf, loaded, h);
    Recency.TouchAllIsMostRecent(loaded, KeyOf);
  }

  /** The rows of a jar as the history that would build it. */
  function OldestFirst(jar: seq<Cookie>): seq<Cookie> { if jar == [] then [] else OldestFirst(jar[1..]) + [jar[0]] }

  lemma {:induction false} OldestFirstIsJar(jar: seq<Cookie>)
    requires Recency.DistinctKeys(jar, KeyOf)
    ensures Recency.MostRecentDistinct(OldestFirst(jar), KeyOf) == jar
  {
    if jar != [] {
      OldestFirstIsJar(jar[1..]);
      Recency.MostRecentSnoc(OldestFirst(jar[1..]), KeyOf, jar[0]);
      Recency.WithoutAbsent(jar[1..], KeyOf, KeyOf(jar[0]));
    }
  }

  /** A save re-applies the batch its sync already merged. While every row is
      still accepted, nothing moves. */
  lemma {:induction false} MergeTwice(jar: seq<Cookie>, rows: seq<Cookie>, now: nat)
    requires Recency.DistinctKeys(jar, KeyOf)
    ensures Merge(Merge(jar, rows, now), rows, now) == Merge(jar, rows, now)
  {
    var batch := AcceptedRows(rows, now);
    UpsertIsTouchAll(jar, batch);
    MergeValid(jar, rows, now);
    UpsertIsTouchAll(Merge(jar, rows, now), batch);
    Recency.TouchAllDistinct(jar, KeyOf, batch);
    Recency.CapTouchAll(Recency.TouchAll(jar, KeyOf, batch), KeyOf, batch, TIER1_COOKIE_MAX);
    Recency.TouchAllTwice(jar, KeyOf, batch);
  }

  /** Two flushes at any two times leave what the rows of both, in order,
      leave in one: the exact effect of a save that runs after its sync. */
  lemma {:induction false} MergeAgain(jar: seq<Cookie>, rows: seq<Cookie>, synced: nat, saved: nat)
    requires Recency.DistinctKeys(jar, KeyOf)
    ensures Merge(Merge(jar, rows, synced), rows, saved)
         == Recency.Capped(
              Recency.TouchAll(jar, KeyOf, AcceptedRows(rows, synced) + AcceptedRows(rows, saved)),
              TIER1_COOKIE_MAX)
  {
    var first, second := AcceptedRows(rows, synced), AcceptedRows(rows, saved);
    UpsertIsTouchAll(jar, first);
    MergeValid(jar, rows, synced);
    UpsertIsTouchAll(Merge(jar, rows, synced), second);
    Recency.TouchAllDistinct(jar, KeyOf, first);
    Recency.CapTouchAll(Recency.TouchAll(jar, KeyOf, first), KeyOf, second, TIER1_COOKIE_MAX);
    Recency.TouchAllSplit(jar, KeyOf, first, second);
  }

  /** Exactly when re-applying a batch moves nothing: the rows still accepted,
      latest first and each cookie once, already stand in front of the jar. */
  lemma {:induction false} ReapplyIff(jar: seq<Cookie>, rows: seq<Cookie>, now: nat)
    requires Valid(jar)
    ensures Merge(jar, rows, now) == jar
       <==> Recency.Capped(Recency.MostRecentDistinct(AcceptedRows(rows, now), KeyOf), TIER1_COOKIE_MAX) <= jar
  {
    UpsertIsTouchAll(jar, AcceptedRows(rows, now));
    Recency.TouchAllStill(jar, KeyOf, AcceptedRows(rows, now), TIER1_COOKIE_MAX);
  }

  /** When a row expires between the sync and the save, the save reorders:
      the rows still alive move in front of it. */
  lemma {:induction false} MergeAfterExpiryReorders()
    ensures exists rows: seq<Cookie>, synced: nat, saved: nat ::
      synced <= saved && Merge(Merge([], rows, synced), rows, saved) != Merge([], rows, synced)
  {
    var lasting := Cookie("a", "1", "x.com", "/", None, false, false, "");
    var brief := Cookie("b", "1", "x.com", "/", Some(5), false, false, "");
    var rows := [lasting, brief];
    assert rows[1..] == [brief] && [brief][1..] == [];
    assert Accepted(lasting, 4) && Accepted(brief, 4) && Accepted(lasting, 5) && !Accepted(brief, 5);
    assert AcceptedRows([], 4) == [] && AcceptedRows([], 5) == [];
    assert AcceptedRows([brief], 4) == [brief];
    assert AcceptedRows(rows, 4) == [lasting] + [brief];
    assert AcceptedRows([brief], 5) == [];
    assert AcceptedRows(rows, 5) == [lasting] + [];
    assert KeyOf(lasting).name != KeyOf(brief).name;
    BriefOverLasting(lasting, brief);
    LastingAgain(lasting, brief);
    assert Merge([], rows, 4) == [brief, lasting];
    assert Merge([brief, lasting], rows, 5) == [lasting, brief];
    assert [lasting, brief][0] != [brief, lasting][0];
  }

  lemma {:induction false} BriefOverLasting(a: Cookie, b: Cookie)
    requires KeyOf(a) != KeyOf(b)
    ensures Upsert([], [a, b]) == [b, a]
  {
    assert [a, b][1..] == [b] && [b][1..] == [] && [a][1..] == [];
    assert [a] + [] == [a] && DropFirst([a], KeyOf(b)) == [a];
    assert Upsert([], [a, b]) == Upsert([a], [b]) == Upsert([b, a], []);
  }

  lemma {:induction false} LastingAgain(a: Cookie, b: Cookie)
    requires KeyOf(a) != KeyOf(b)
    ensures Upsert([b, a], [a]) == [a, b]
  {
    assert [b, a][1..] == [a] && [a][1..] == [];
    assert DropFirst([a], KeyOf(a)) == [] && DropFirst([b, a], KeyOf(a)) == [b];
    assert Upsert([b, a], [a]) == Upsert([a, b], []);
  }

  // ---- What a batch puts in front of any jar ----

  lemma {:induction false} DropFirstConcat(a: seq<Cookie>, b: seq<Cookie>, k: JarKey)
    ensures DropFirst(a + b, k) == if Recency.HasKey(a, KeyOf, k) then DropFirst(a, k) + b else a + DropFirst(b, k)
  {
    if a == [] {
      assert a + b == b;
    } else {
      assert (a + b)[0] == a[0] && (a + b)[1..] == a[1..] + b;
      DropFirstConcat(a[1..], b, k);
      HasKeyHead(a, k);
      if KeyOf(a[0]) != k {
        assert DropFirst(a + b, k) == [a[0]] + DropFirst(a[1..] + b, k);
      }
    }
  }

  lemma {:induction false} HasKeyHead(a: seq<Cookie>, k: JarKey)
    requires a != []
    ensures Recency.HasKey(a, KeyOf, k) <==> KeyOf(a[0]) == k || Recency.HasKey(a[1..], KeyOf, k)
  {
    if Recency.HasKey(a[1..], KeyOf, k) {
      var i :| 0 <= i < |a[1..]| && KeyOf(a[1..][i]) == k;
      assert KeyOf(a[i + 1]) == k;
    }
    if Recency.HasKey(a, KeyOf, k) && KeyOf(a[0]) != k {
      var i :| 0 <= i < |a| && KeyOf(a[i]) == k;
      assert KeyOf(a[1..][i - 1]) == k;
    }
  }

  /** The rows of a batch stand in front, whatever the jar held; what is left of
      the jar stands behind. */
  lemma {:induction false} UpsertFront(front: seq<Cookie>, back: seq<Cookie>, rows: seq<Cookie>) returns (rest: seq<Cookie>)
    ensures Upsert(front + back, rows) == Upsert(front, rows) + rest
    ensures forall c :: c in rest ==> c in back
    decreases |rows|
  {
    if rows == [] {
      rest := back;
    } else {
      var k := KeyOf(rows[0]);
      DropFirstConcat(front, back, k);
      DroppedRows(back, k);
      var left := if Recency.HasKey(front, KeyOf, k) then back else DropFirst(back, k);
      DroppedNothing(front, k);
      var touched := [rows[0]] + DropFirst(front, k);
      assert DropFirst(front + back, k) == DropFirst(front, k) + left;
      assert [rows[0]] + DropFirst(front + back, k) == touched + left;
      rest := UpsertFront(touched, left, rows[1..]);
      assert Upsert(front + back, rows) == Upsert(touched + left, rows[1..]);
      assert Upsert(front, rows) == Upsert(touched, rows[1..]);
    }
  }

  lemma {:induction false} DroppedNothing(jar: seq<Cookie>, k: JarKey)
    ensures !Recency.HasKey(jar, KeyOf, k) ==> DropFirst(jar, k) == jar
  {
    if jar != [] {
      HasKeyHead(jar, k);
      DroppedNothing(jar[1..], k);
    }
  }

  lemma {:induction false} DroppedRows(jar: seq<Cookie>, k: JarKey)
    ensures forall c :: c in DropFirst(jar, k) ==> c in jar
  {
    if jar != [] {
      DroppedRows(jar[1..], k);
      assert forall c :: c in jar <==> c == jar[0] || c in jar[1..];
    }
  }

  /** A cookie the jar did not hold is in it after a flush exactly when it is
      among the first 500 distinct accepted rows of the batch. */
  lemma {:induction false} FlushedIff(jar: seq<Cookie>, rows: seq<Cookie>, now: nat, k: JarKey)
    requires !Recency.HasKey(jar, KeyOf, k)
    ensures Recency.HasKey(Merge(jar, rows, now), KeyOf, k)
       <==> Recency.HasKey(Recency.Capped(Recency.MostRecentDistinct(AcceptedRows(rows, now), KeyOf), TIER1_COOKIE_MAX), KeyOf, k)
  {
    var acc := AcceptedRows(rows, now);
    var m := Recency.MostRecentDistinct(acc, KeyOf);
    assert [] + jar == jar;
    var rest := UpsertFront([], jar, acc);
    UpsertIsTouchAll([], acc);
    Recency.TouchAllIsMostRecent(acc, KeyOf);
    assert Upsert(jar, acc) == m + rest;
    forall i | 0 <= i < |rest| ensures KeyOf(rest[i]) != k {
      assert rest[i] in rest;
      var j :| 0 <= j < |jar| && jar[j] == rest[i];
      assert KeyOf(jar[j]) != k;
    }
    CappedKeys(m, rest, k, TIER1_COOKIE_MAX);
  }

  /** The same name and path, on hosts that differ in leading dots and letter
      case only. */
  predicate SameCookie(a: Cookie, b: Cookie)
  {
    a.name == b.name && a.path == b.path && FoldDomain(a.domain) == FoldDomain(b.domain)
  }

  lemma {:induction false} AcceptedPlace(rows: seq<Cookie>, now: nat, i: nat) returns (k: nat)
    requires i < |rows| && Accepted(rows[i], now)
    requires forall j :: i < j < |rows| && Accepted(rows[j], now) ==> KeyOf(rows[j]) != KeyOf(rows[i])
    ensures k < |AcceptedRows(rows, now)| <= |rows| && AcceptedRows(rows, now)[k] == rows[i]
    ensures forall j :: k < j < |AcceptedRows(rows, now)| ==> KeyOf(AcceptedRows(rows, now)[j]) != KeyOf(rows[i])
  {
    var rest := AcceptedRows(rows[1..], now);
    FewerTaken(rows[1..], now);
    if i > 0 {
      k := AcceptedPlace(rows[1..], now, i - 1);
      if Accepted(rows[0], now) { k := k + 1; }
    } else {
      k := 0;
      TakenFrom(rows[1..], now);
      forall j | 0 <= j < |rest| ensures KeyOf(rest[j]) != KeyOf(rows[0]) {
        assert rest[j] in rest;
        var m :| 0 <= m < |rows[1..]| && rows[1..][m] == rest[j] && Accepted(rest[j], now);
        assert rows[m + 1] == rest[j];
      }
    }
  }

  lemma {:induction false} FewerTaken(rows: seq<Cookie>, now: nat)
    ensures |AcceptedRows(rows, now)| <= |rows|
  {
    if rows != [] { FewerTaken(rows[1..], now); }
  }

  lemma {:induction false} TakenFrom(rows: seq<Cookie>, now: nat)
    ensures forall c :: c in AcceptedRows(rows, now) ==> c in rows && Accepted(c, now)
  {
    if rows != [] { TakenFrom(rows[1..], now); }
  }

  /** After a flush of at most 500 rows the last accepted version of each cookie
      in it stands in the jar, and is the only row of that cookie there. */
  lemma {:induction false} FlushStands(jar: seq<Cookie>, rows: seq<Cookie>, now: nat, i: nat)
    requires Valid(jar) && i < |rows| <= 500 && Accepted(rows[i], now)
    requires forall j :: i < j < |rows| && Accepted(rows[j], now) ==> !SameCookie(rows[i], rows[j])
    ensures rows[i] in Merge(jar, rows, now)
    ensures forall c :: c in Merge(jar, rows, now) && SameCookie(c, rows[i]) ==> c == rows[i]
  {
    var acc := AcceptedRows(rows, now);
    var m := Recency.MostRecentDistinct(acc, KeyOf);
    var k := AcceptedPlace(rows, now, i);
    Recency.LatestStands(acc, KeyOf, k);
    assert [] + jar == jar;
    var rest := UpsertFront([], jar, acc);
    UpsertIsTouchAll([], acc);
    Recency.TouchAllIsMostRecent(acc, KeyOf);
    InCapped(m, rest, rows[i]);
    MergeValid(jar, rows, now);
    OnlyOne(Merge(jar, rows, now), rows[i]);
  }

  lemma {:induction false} InCapped(m: seq<Cookie>, rest: seq<Cookie>, c: Cookie)
    requires c in m && |m| <= TIER1_COOKIE_MAX
    ensures c in Recency.Capped(m + rest, TIER1_COOKIE_MAX)
  {
    var i :| 0 <= i < |m| && m[i] == c;
    assert Recency.Capped(m + rest, TIER1_COOKIE_MAX)[i] == c;
  }

  lemma {:induction false} OnlyOne(jar: seq<Cookie>, c: Cookie)
    requires Recency.DistinctKeys(jar, KeyOf) && c in jar
    ensures forall x :: x in jar && SameCookie(x, c) ==> x == c
  {
  }

  lemma {:induction false} CappedKeys(m: seq<Cookie>, rest: seq<Cookie>, k: JarKey, cap: nat)
    requires forall i :: 0 <= i < |rest| ==> KeyOf(rest[i]) != k
    ensures Recency.HasKey(Recency.Capped(m + rest, cap), KeyOf, k) <==> Recency.HasKey(Recency.Capped(m, cap), KeyOf, k)
  {
    var all, front := Recency.Capped(m + rest, cap), Recency.Capped(m, cap);
    assert forall i :: 0 <= i < |front| ==> all[i] == front[i];
    assert forall i :: |front| <= i < |all| ==> all[i] == rest[i - |m|];
    if Recency.HasKey(front, KeyOf, k) {
      var i :| 0 <= i < |front| && KeyOf(front[i]) == k;
      assert KeyOf(all[i]) == k;
    }
    if Recency.HasKey(all, KeyOf, k) {
      var i :| 0 <= i < |all| && KeyOf(all[i]) == k;
      assert i < |front|;
      assert KeyOf(front[i]) == k;
    }
  }
}
