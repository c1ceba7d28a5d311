/** The credential store: an ordered list of categories ("tipos"), each holding an ordered list of
    credential records, mirroring the in-memory `credentials` object of server.js. The category
    order is the object's property order, which the login scan follows. */
module CredStore {
  import opened Wrappers
  import opened Seqs
  import opened Expiration

  /** A credential record. The empty string stands for a missing or falsy username/password;
      `createdAt` is in milliseconds, and None or Some(0) both read as "no timestamp". */
  datatype Cred = Cred(username: string, password: string, createdAt: Option<int>)

  datatype Entry = Entry(tipo: string, creds: seq<Cred>)

  type Store = seq<Entry>

  /** A record is expired iff it carries a creation time more than 12 hours before `now`. */
  predicate IsExpired(c: Cred, now: int) {
    IsExpiredAt(c.createdAt, now)
  }

  /** No category appears twice: the store is the image of a JS object. */
  predicate DistinctKeys(s: Store) {
    forall i, j :: 0 <= i < j < |s| ==> s[i].tipo != s[j].tipo
  }

  function Keys(s: Store): (ks: seq<string>)
    ensures |ks| == |s|
    ensures forall k :: 0 <= k < |s| ==> ks[k] == s[k].tipo
  {
    seq(|s|, k requires 0 <= k < |s| => s[k].tipo)
  }

  /** The position of category `tipo`: the first entry carrying it, if any. */
  function IndexOf(s: Store, tipo: string): (r: Option<nat>)
    ensures r.Some? ==> r.value < |s| && s[r.value].tipo == tipo
    ensures r.Some? ==> forall i :: 0 <= i < r.value ==> s[i].tipo != tipo
    ensures r.None? ==> forall i :: 0 <= i < |s| ==> s[i].tipo != tipo
  {
    if s == [] then None
    else if s[0].tipo == tipo then Some(0)
    else match IndexOf(s[1..], tipo)
      case Some(i) => Some(i + 1)
      case None => None
  }

  /** `credentials[tipo]`: the record list of a category, or None when the key is missing. */
  function Get(s: Store, tipo: string): (r: Option<seq<Cred>>)
    ensures r.Some? <==> tipo in Keys(s)
    ensures forall k :: 0 <= k < |s| && s[k].tipo == tipo && DistinctKeys(s) ==> r == Some(s[k].creds)
  {
    match IndexOf(s, tipo)
    case Some(i) => Some(s[i].creds)
    case None => None
  }

  /** `credentials[tipo] = creds`: overwrite the category in place, or add it after the others. */
  function Put(s: Store, tipo: string, creds: seq<Cred>): (r: Store)
    ensures Get(r, tipo) == Some(creds)
    ensures forall k :: k != tipo ==> Get(r, k) == Get(s, k)
    ensures tipo in Keys(s) ==> Keys(r) == Keys(s)
    ensures tipo !in Keys(s) ==> Keys(r) == Keys(s) + [tipo]
    ensures DistinctKeys(s) ==> DistinctKeys(r)
  {
    match IndexOf(s, tipo)
    case Some(i) =>
      var r := s[i := Entry(tipo, creds)];
      assert Keys(r) == Keys(s);
      IndexOfUpdate(s, i, creds);
      r
    case None =>
      IndexOfAppend(s, Entry(tipo, creds));
      s + [Entry(tipo, creds)]
  }

  /** Overwriting the list of an existing category moves no key. */
  lemma IndexOfUpdate(s: Store, i: nat, creds: seq<Cred>)
    requires i < |s|
    ensures forall k :: IndexOf(s[i := Entry(s[i].tipo, creds)], k) == IndexOf(s, k)
  {
    var r := s[i := Entry(s[i].tipo, creds)];
    forall k ensures IndexOf(r, k) == IndexOf(s, k) {
      match IndexOf(s, k)
      case Some(j) => IndexOfFirst(r, k, j);
      case None => assert forall m :: 0 <= m < |r| ==> r[m].tipo != k;
    }
  }

  /** Appending an entry keeps every earlier key where it was and finds the new key at the end. */
  lemma IndexOfAppend(s: Store, e: Entry)
    ensures forall k :: IndexOf(s, k).Some? ==> IndexOf(s + [e], k) == IndexOf(s, k)
    ensures forall k :: IndexOf(s, k).None? && k != e.tipo ==> IndexOf(s + [e], k).None?
    ensures IndexOf(s, e.tipo).None? ==> IndexOf(s + [e], e.tipo) == Some(|s|)
  {
    var r := s + [e];
    forall k ensures IndexOf(s, k).Some? ==> IndexOf(r, k) == IndexOf(s, k) {
      if IndexOf(s, k).Some? {
        IndexOfFirst(r, k, IndexOf(s, k).value);
      }
    }
    if IndexOf(s, e.tipo).None? {
      IndexOfFirst(r, e.tipo, |s|);
    }
  }

  /** Any position holding the first occurrence of a key is what IndexOf returns. */
  lemma IndexOfFirst(s: Store, tipo: string, j: nat)
    requires j < |s| && s[j].tipo == tipo
    requires forall i :: 0 <= i < j ==> s[i].tipo != tipo
    ensures IndexOf(s, tipo) == Some(j)
  {
  }

  /** Total number of records over all categories. */
  function TotalSize(s: Store): nat {
    if s == [] then 0 else |s[0].creds| + TotalSize(s[1..])
  }

  /** Some record of the list is expired at `now`. */
  predicate ListHasExpired(cs: seq<Cred>, now: int) {
    exists j :: 0 <= j < |cs| && IsExpired(cs[j], now)
  }

  /** Some record of some category is expired at `now`. */
  predicate HasExpired(s: Store, now: int) {
    exists k :: 0 <= k < |s| && ListHasExpired(s[k].creds, now)
  }

  function NotExpiredAt(now: int): Cred -> bool {
    c => !IsExpired(c, now)
  }

  /** The store with every expired record removed: the outcome the cleanup sweep must reach. */
  function SweepStore(s: Store, now: int): (r: Store)
    ensures Keys(r) == Keys(s)
  {
    seq(|s|, k requires 0 <= k < |s| => Entry(s[k].tipo, Filter(NotExpiredAt(now), s[k].creds)))
  }

  /** The sweep keeps every category, removes exactly the expired records, and keeps the
      survivors in their original relative order. */
  lemma SweepStoreProperties(s: Store, now: int)
    ensures forall k :: 0 <= k < |s| ==> IsSubseq(SweepStore(s, now)[k].creds, s[k].creds)
    ensures forall k, j :: 0 <= k < |s| && 0 <= j < |SweepStore(s, now)[k].creds|
              ==> SweepStore(s, now)[k].creds[j] in s[k].creds && !IsExpired(SweepStore(s, now)[k].creds[j], now)
    ensures forall k, j :: 0 <= k < |s| && 0 <= j < |s[k].creds| && !IsExpired(s[k].creds[j], now)
              ==> s[k].creds[j] in SweepStore(s, now)[k].creds
    ensures forall k :: 0 <= k < |s| ==>
              (|SweepStore(s, now)[k].creds| == |s[k].creds| <==> !ListHasExpired(s[k].creds, now))
  {
    forall k | 0 <= k < |s| {
      FilterProperties(NotExpiredAt(now), s[k].creds);
    }
  }

  lemma SweepStoreSnoc(s: Store, k: nat, now: int)
    requires k < |s|
    ensures SweepStore(s[..k + 1], now)
         == SweepStore(s[..k], now) + [Entry(s[k].tipo, Filter(NotExpiredAt(now), s[k].creds))]
  {
  }

  /** Splicing out position i of the partially swept list, when cs[i] is expired, extends the
      swept suffix by one position; keeping it does the same when cs[i] is live. */
  lemma SweepSpliceStep(cs: seq<Cred>, i: nat, kept: seq<Cred>, now: int)
    requires i < |cs|
    requires kept == cs[..i + 1] + Filter(NotExpiredAt(now), cs[i + 1..])
    ensures kept[i] == cs[i]
    ensures IsExpired(cs[i], now) ==> kept[..i] + kept[i + 1..] == cs[..i] + Filter(NotExpiredAt(now), cs[i..])
    ensures !IsExpired(cs[i], now) ==> kept == cs[..i] + Filter(NotExpiredAt(now), cs[i..])
  {
    FilterStep(NotExpiredAt(now), cs, i);
    assert cs[..i + 1] == cs[..i] + [cs[i]];
    if IsExpired(cs[i], now) {
      assert kept[..i] == cs[..i];
      assert kept[i + 1..] == Filter(NotExpiredAt(now), cs[i + 1..]);
    }
  }

  /** The periodic sweep of one category, walking the list from the end and splicing out
      every expired record, as `cleanupExpiredCredentials` does; `changed` records a removal. */
  method SweepCategory(cs: seq<Cred>, now: int) returns (kept: seq<Cred>, changed: bool)
    ensures kept == Filter(NotExpiredAt(now), cs)
    ensures changed <==> ListHasExpired(cs, now)
  {
    kept := cs;
    changed := false;
    var i := |cs|;
    assert cs[i..] == [];
    while i > 0
      invariant 0 <= i <= |cs|
      invariant kept == cs[..i] + Filter(NotExpiredAt(now), cs[i..])
      invariant changed <==> exists j :: i <= j < |cs| && IsExpired(cs[j], now)
    {
      i := i - 1;
      SweepSpliceStep(cs, i, kept, now);
      if IsExpired(kept[i], now) {
        kept := kept[..i] + kept[i + 1..];
        changed := true;
      }
    }
    assert cs[0..] == cs;
  }

  /** `cleanupExpiredCredentials`: remove exactly the expired records of every category and
      report whether the file must be rewritten (only if something was removed). */
  method CleanupExpiredCredentials(s: Store, now: int) returns (r: Store, saved: bool)
    ensures r == SweepStore(s, now)
    ensures saved <==> HasExpired(s, now)
  {
    r := [];
    saved := false;
    var k := 0;
    while k < |s|
      invariant 0 <= k <= |s|
      invariant r == SweepStore(s[..k], now)
      invariant saved <==> HasExpired(s[..k], now)
    {
      var kept, changed := SweepCategory(s[k].creds, now);
      SweepStoreSnoc(s, k, now);
      assert s[..k + 1][k] == s[k];
      assert forall m :: 0 <= m < k ==> s[..k + 1][m] == s[..k][m];
      r := r + [Entry(s[k].tipo, kept)];
      saved := saved || changed;
      k := k + 1;
    }
    assert s[..k] == s;
  }

  /** A second sweep at the same time finds nothing to remove and changes nothing,
      so the file is not rewritten again. */
  lemma CleanupIdempotent(s: Store, now: int)
    ensures !HasExpired(SweepStore(s, now), now)
    ensures SweepStore(SweepStore(s, now), now) == SweepStore(s, now)
  {
    var r := SweepStore(s, now);
    SweepStoreProperties(s, now);
    forall k | 0 <= k < |r|
      ensures Filter(NotExpiredAt(now), r[k].creds) == r[k].creds
    {
      FilterAllKept(NotExpiredAt(now), r[k].creds);
    }
  }
}
