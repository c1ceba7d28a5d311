/** Loading the credential file: turning the parsed JSON value into the store, tolerating a
    bare object per category and malformed entries, and writing the store back out. Parsing and
    printing JSON text are not modelled: the file arrives as an already-parsed value. */
module CredFile {
  import opened Wrappers
  import opened Seqs
  import opened Text
  import opened CredStore

  /** A parsed JSON value. Object members are listed in the object's property enumeration order;
      numbers are integral. */
  datatype Json =
    | JNull
    | JBool(b: bool)
    | JNum(n: int)
    | JStr(s: string)
    | JArr(items: seq<Json>)
    | JObj(members: seq<Member>)

  datatype Member = Member(key: string, value: Json)

  /** JavaScript truthiness of a JSON value. */
  predicate Truthy(j: Json) {
    match j
    case JNull => false
    case JBool(b) => b
    case JNum(n) => n != 0
    case JStr(s) => s != ""
    case JArr(_) => true
    case JObj(_) => true
  }

  /** `typeof j === 'object' && j !== null`: arrays count as objects. */
  predicate IsObject(j: Json) {
    j.JArr? || j.JObj?
  }

  /** Member i is the last one carrying `key`. */
  predicate LastWithKey(ms: seq<Member>, key: string, i: nat) {
    && i < |ms|
    && ms[i].key == key
    && forall j :: i < j < |ms| ==> ms[j].key != key
  }

  /** The value of property `key`; when a key is repeated the last occurrence wins, as in JSON.parse. */
  function Lookup(ms: seq<Member>, key: string): (r: Option<Json>)
    ensures r.Some? <==> exists i :: 0 <= i < |ms| && ms[i].key == key
    ensures r.Some? ==> exists i: nat :: LastWithKey(ms, key, i) && r.value == ms[i].value
  {
    if ms == [] then None
    else match Lookup(ms[1..], key)
      case Some(v) => Some(v)
      case None => if ms[0].key == key then Some(ms[0].value) else None
  }

  /** `obj.key` read in a boolean context: a missing property is falsy. */
  predicate TruthyField(ms: seq<Member>, key: string) {
    match Lookup(ms, key)
    case Some(v) => Truthy(v)
    case None => false
  }

  /** A username or password field; any value that is not a string reads as absent. */
  function StringField(ms: seq<Member>, key: string): string {
    match Lookup(ms, key)
    case Some(JStr(s)) => s
    case _ => ""
  }

  /** A createdAt field as the expiry arithmetic sees it: a number is a timestamp and `true`
      subtracts as 1; every other value never compares as expired. */
  function TimeField(ms: seq<Member>, key: string): Option<int> {
    match Lookup(ms, key)
    case Some(JNum(n)) => Some(n)
    case Some(JBool(true)) => Some(1)
    case _ => None
  }

  /** The record an object-typed list element stands for; an array element carries no fields. */
  function ToCred(j: Json): Cred {
    match j
    case JObj(ms) => Cred(StringField(ms, "username"), StringField(ms, "password"), TimeField(ms, "createdAt"))
    case _ => Cred("", "", None)
  }

  /** An array entry: keep its non-null object elements, in order, as records. */
  function ConvertItems(items: seq<Json>): (r: seq<Cred>)
    ensures r == Map(ToCred, Filter(IsObject, items))
  {
    if items == [] then []
    else
      var rest := ConvertItems(items[1..]);
      if IsObject(items[0]) then
        assert Filter(IsObject, items) == [items[0]] + Filter(IsObject, items[1..]);
        MapCons(ToCred, items[0], Filter(IsObject, items[1..]));
        [ToCred(items[0])] + rest
      else
        assert Filter(IsObject, items) == Filter(IsObject, items[1..]);
        rest
  }

  /** The record list a category entry of the file normalises to: an array keeps its object
      elements, a bare object with truthy username and password becomes a one-element list,
      anything else becomes the empty list. */
  function NormaliseEntry(j: Json): (r: seq<Cred>)
    ensures j.JArr? ==> r == Map(ToCred, Filter(IsObject, j.items))
    ensures j.JObj? ==> |r| <= 1
    ensures j.JObj? ==> (r != [] <==> TruthyField(j.members, "username") && TruthyField(j.members, "password"))
    ensures j.JObj? && r != [] ==> r[0] == ToCred(j)
    ensures !IsObject(j) ==> r == []
  {
    match j
    case JArr(items) => ConvertItems(items)
    case JObj(ms) =>
      if TruthyField(ms, "username") && TruthyField(ms, "password") then [ToCred(j)] else []
    case _ => []
  }

  /** The (key, value) pairs a `for ... in` loop with an own-property check visits on the parsed
      value: an object's members, an array's or a string's indices, nothing for other values. */
  function EnumerableMembers(top: Json): seq<Member> {
    match top
    case JObj(ms) => ms
    case JArr(items) => seq(|items|, i requires 0 <= i < |items| => Member(NatToString(i), items[i]))
    case JStr(s) => seq(|s|, i requires 0 <= i < |s| => Member(NatToString(i), JStr([s[i]])))
    case _ => []
  }

  /** Assign each visited member's normalised list to its category, in visiting order. */
  function LoadMembers(acc: Store, ms: seq<Member>): (r: Store)
    requires DistinctKeys(acc)
    ensures DistinctKeys(r)
    decreases |ms|
  {
    if ms == [] then acc
    else LoadMembers(Put(acc, ms[0].key, NormaliseEntry(ms[0].value)), ms[1..])
  }

  /** Every visited key ends up as a category; a repeated key keeps its first position and
      its last value; keys not visited keep what the accumulator had. */
  lemma {:induction false} LoadMembersProperties(acc: Store, ms: seq<Member>)
    requires DistinctKeys(acc)
    ensures forall k :: k in Keys(LoadMembers(acc, ms)) <==> k in Keys(acc) || Lookup(ms, k).Some?
    ensures forall k :: Lookup(ms, k).Some? ==>
              Get(LoadMembers(acc, ms), k) == Some(NormaliseEntry(Lookup(ms, k).value))
    ensures forall k :: Lookup(ms, k).None? ==> Get(LoadMembers(acc, ms), k) == Get(acc, k)
    decreases |ms|
  {
    if ms != [] {
      var acc' := Put(acc, ms[0].key, NormaliseEntry(ms[0].value));
      LoadMembersProperties(acc', ms[1..]);
      forall k ensures k in Keys(acc') <==> k in Keys(acc) || k == ms[0].key {
      }
    }
  }

  /** Startup load: a missing or unparsable file (None) leaves the store empty; otherwise every
      visited key becomes a category holding its normalised list. */
  function Load(file: Option<Json>): (r: Store)
    ensures DistinctKeys(r)
    ensures file.None? ==> r == []
    ensures file.Some? ==> forall k ::
      (k in Keys(r) <==> Lookup(EnumerableMembers(file.value), k).Some?)
    ensures file.Some? ==> forall k :: Lookup(EnumerableMembers(file.value), k).Some? ==>
      Get(r, k) == Some(NormaliseEntry(Lookup(EnumerableMembers(file.value), k).value))
  {
    match file
    case None => []
    case Some(j) =>
      LoadMembersProperties([], EnumerableMembers(j));
      LoadMembers([], EnumerableMembers(j))
  }

  /** The JSON object a record is written as; an absent creation time is omitted. */
  function CredJson(c: Cred): Json {
    JObj([Member("username", JStr(c.username)), Member("password", JStr(c.password))]
         + (if c.createdAt.Some? then [Member("createdAt", JNum(c.createdAt.value))] else []))
  }

  function SaveEntries(es: seq<Entry>): seq<Member> {
    if es == [] then []
    else [Member(es[0].tipo, JArr(Map(CredJson, es[0].creds)))] + SaveEntries(es[1..])
  }

  /** The value `saveCredentialsToFile` writes: one array of record objects per category. */
  function Save(s: Store): Json {
    JObj(SaveEntries(s))
  }

  /** The members of a timed record's object, one lookup at a time. */
  lemma TimedCredFields(c: Cred)
    requires c.createdAt.Some?
    ensures var ms := CredJson(c).members;
      && Lookup(ms, "createdAt") == Some(JNum(c.createdAt.value))
      && Lookup(ms, "password") == Some(JStr(c.password))
      && Lookup(ms, "username") == Some(JStr(c.username))
  {
    var ms := CredJson(c).members;
    var t := Member("createdAt", JNum(c.createdAt.value));
    assert ms[1..] == [ms[1], t];
    LastMemberFound(ms, t);
    LastMemberFound(ms[1..], t);
    assert Lookup(ms[1..][1..], "password") == None by {
      assert ms[1..][1..] == [t];
    }
    assert Lookup(ms[1..], "password") == Some(JStr(c.password));
    assert Lookup(ms[1..], "username") == None by {
      assert ms[1..][1..] == [t];
      assert Lookup([t], "username") == None;
    }
  }

  /** A member that comes last is what a lookup of its key finds. */
  lemma LastMemberFound(ms: seq<Member>, m: Member)
    requires |ms| > 0 && ms[|ms| - 1] == m
    ensures Lookup(ms, m.key) == Some(m.value)
  {
    if |ms| > 1 {
      LastMemberFound(ms[1..], m);
    }
  }

  /** A timed record's object holds its username, password and creation time. */
  lemma TimedCredRoundTrip(c: Cred)
    requires c.createdAt.Some?
    ensures ToCred(CredJson(c)) == c
  {
    TimedCredFields(c);
  }

  /** An untimed record's object holds its username and password and no creation time. */
  lemma UntimedCredRoundTrip(c: Cred)
    requires c.createdAt.None?
    ensures ToCred(CredJson(c)) == c
  {
    var ms := CredJson(c).members;
    assert ms[1..] == [ms[1]];
    assert Lookup(ms[1..], "username") == None;
    assert Lookup(ms[1..], "password") == Some(JStr(c.password));
    assert Lookup(ms[1..], "createdAt") == None;
  }

  lemma CredJsonRoundTrip(c: Cred)
    ensures IsObject(CredJson(c)) && ToCred(CredJson(c)) == c
  {
    if c.createdAt.Some? {
      TimedCredRoundTrip(c);
    } else {
      UntimedCredRoundTrip(c);
    }
  }

  /** A written record list reads back as the same list. */
  lemma CredsRoundTrip(cs: seq<Cred>)
    ensures NormaliseEntry(JArr(Map(CredJson, cs))) == cs
  {
    var items := Map(CredJson, cs);
    forall i | 0 <= i < |items| ensures IsObject(items[i]) && ToCred(items[i]) == cs[i] {
      CredJsonRoundTrip(cs[i]);
    }
    FilterAllKept(IsObject, items);
  }

  /** Splitting a store with distinct keys at its first suffix entry: the prefix has distinct keys
      and does not hold that entry's key, so writing the entry appends it. */
  lemma SplitFirstEntry(acc: Store, es: seq<Entry>)
    requires es != [] && DistinctKeys(acc + es)
    ensures DistinctKeys(acc) && DistinctKeys(acc + [es[0]])
    ensures Put(acc, es[0].tipo, es[0].creds) == acc + [es[0]]
    ensures (acc + [es[0]]) + es[1..] == acc + es
  {
    var all := acc + es;
    assert forall i :: 0 <= i < |acc| ==> acc[i] == all[i];
    assert all[|acc|] == es[0];
    assert forall i :: 0 <= i <= |acc| ==> (acc + [es[0]])[i] == all[i];
    assert IndexOf(acc, es[0].tipo).None?;
  }

  lemma {:induction false} LoadSaveEntries(acc: Store, es: seq<Entry>)
    requires DistinctKeys(acc + es)
    ensures DistinctKeys(acc)
    ensures LoadMembers(acc, SaveEntries(es)) == acc + es
    decreases |es|
  {
    if es == [] {
      assert acc + es == acc;
    } else {
      SplitFirstEntry(acc, es);
      CredsRoundTrip(es[0].creds);
      var ms := SaveEntries(es);
      assert ms[1..] == SaveEntries(es[1..]);
      assert LoadMembers(acc, ms) == LoadMembers(acc + [es[0]], ms[1..]);
      LoadSaveEntries(acc + [es[0]], es[1..]);
    }
  }

  /** Writing the store and loading the file back yields the same store: the same categories in
      the same order, each with the same records in the same order. */
  lemma LoadSaveRoundTrip(s: Store)
    requires DistinctKeys(s)
    ensures Load(Some(Save(s))) == s
  {
    assert [] + s == s;
    LoadSaveEntries([], s);
    LoadObject(SaveEntries(s));
  }

  /** Loading a file holding a JSON object folds its members in order into an empty store. */
  lemma LoadObject(ms: seq<Member>)
    ensures Load(Some(JObj(ms))) == LoadMembers([], ms)
  {
    assert EnumerableMembers(JObj(ms)) == ms;
  }
}
