/** `/confirm-payment`: validate the buyer's fields, map the product to a category, generate a
    credential stamped with the current time and append it to that category's list. */
module Payment {
  import opened Wrappers
  import opened Text
  import opened CredStore
  import opened Generator

  /** The request body; the empty string stands for a missing or falsy field. */
  datatype PaymentRequest = PaymentRequest(name: string, phone: string, product: string)

  /** What the handler decided: a 400, or the category and the credential it issued. The HTTP
      reply to the buyer carries only a success flag and a message; the issued credential leaves
      the server in the administrator's notification, which this model leaves out. */
  datatype PaymentResponse = BadRequest | Confirmed(tipo: string, issued: Cred)

  /** The response, the store afterwards and the number of file writes. */
  datatype PaymentResult = PaymentResult(response: PaymentResponse, store: Store, saves: nat)

  /** The category a product buys, decided on the upper-cased product name: PACK, or both bots,
      buys a pack; otherwise CASINOBOT buys casino and SPORTINGBOT buys bet; anything else is temp. */
  function ProductCategory(product: string): (tipo: string)
    ensures tipo in {"pack", "casino", "bet", "temp"}
  {
    var upper := ToUpper(product);
    if Contains(upper, "PACK") || (Contains(upper, "CASINOBOT") && Contains(upper, "SPORTINGBOT")) then "pack"
    else if Contains(upper, "CASINOBOT") then "casino"
    else if Contains(upper, "SPORTINGBOT") then "bet"
    else "temp"
  }

  /** `credentials[tipo].push(cred)`, creating the category's list when it is missing. */
  function Append(s: Store, tipo: string, cred: Cred): (r: Store)
    ensures Get(r, tipo) == Some(Get(s, tipo).GetOr([]) + [cred])
    ensures forall k :: k != tipo ==> Get(r, k) == Get(s, k)
    ensures DistinctKeys(s) ==> DistinctKeys(r)
    ensures forall k :: k in Keys(r) <==> k in Keys(s) || k == tipo
  {
    Put(s, tipo, Get(s, tipo).GetOr([]) + [cred])
  }

  function ConfirmPayment(s: Store, req: PaymentRequest, d: Draws, now: int): (r: PaymentResult)
    requires ValidDraws(d)
    ensures r.response.BadRequest? <==> req.name == "" || req.phone == "" || req.product == ""
    ensures r.response.BadRequest? ==> r.store == s && r.saves == 0
    ensures r.response.Confirmed? ==>
      var tipo, c := r.response.tipo, r.response.issued;
      && tipo == ProductCategory(req.product)
      && c.createdAt == Some(now)
      && UsernameShape(tipo, c.username) && PasswordShape(tipo, c.password)
      && Get(r.store, tipo) == Some(Get(s, tipo).GetOr([]) + [c])
      && (forall k :: k != tipo ==> Get(r.store, k) == Get(s, k))
      && (forall k :: k in Keys(r.store) <==> k in Keys(s) || k == tipo)
      && r.saves == 1
    ensures DistinctKeys(s) ==> DistinctKeys(r.store)
  {
    if req.name == "" || req.phone == "" || req.product == "" then
      PaymentResult(BadRequest, s, 0)
    else
      var tipo := ProductCategory(req.product);
      var g := GerarCredencial(tipo, d);
      var c := Cred(g.username, g.password, Some(now));
      PaymentResult(Confirmed(tipo, c), Append(s, tipo, c), 1)
  }

  /** Upper-casing is idempotent, so the category ignores letter case in the product name. */
  lemma ProductCategoryIgnoresCase(product: string)
    ensures ProductCategory(ToUpper(product)) == ProductCategory(product)
  {
    assert ToUpper(ToUpper(product)) == ToUpper(product);
  }

  /** "PACK" anywhere, or both bots together, buys a pack; the casino bot alone buys casino, the sports bot alone
      buys bet, and a product naming none of the three is issued a temp credential. */
  lemma ProductCategoryPriority(product: string)
    ensures var u := ToUpper(product);
      Contains(u, "PACK") ==> ProductCategory(product) == "pack"
    ensures var u := ToUpper(product);
      (Contains(u, "CASINOBOT") && Contains(u, "SPORTINGBOT")) ==> ProductCategory(product) == "pack"
    ensures var u := ToUpper(product);
      (!Contains(u, "PACK") && Contains(u, "CASINOBOT") && !Contains(u, "SPORTINGBOT"))
        ==> ProductCategory(product) == "casino"
    ensures var u := ToUpper(product);
      (!Contains(u, "PACK") && !Contains(u, "CASINOBOT") && Contains(u, "SPORTINGBOT"))
        ==> ProductCategory(product) == "bet"
    ensures var u := ToUpper(product);
      (!Contains(u, "PACK") && !Contains(u, "CASINOBOT") && !Contains(u, "SPORTINGBOT"))
        ==> ProductCategory(product) == "temp"
  {
  }

  /** Two confirmed payments one after the other both leave their record in the store. */
  lemma SequentialPaymentsKeepBoth(s: Store, req1: PaymentRequest, req2: PaymentRequest,
                                   d1: Draws, d2: Draws, t1: int, t2: int)
    requires ValidDraws(d1) && ValidDraws(d2)
    requires ConfirmPayment(s, req1, d1, t1).response.Confirmed?
    requires ConfirmPayment(ConfirmPayment(s, req1, d1, t1).store, req2, d2, t2).response.Confirmed?
    ensures
      var r1 := ConfirmPayment(s, req1, d1, t1);
      var r2 := ConfirmPayment(r1.store, req2, d2, t2);
      && Get(r2.store, r1.response.tipo).Some?
      && r1.response.issued in Get(r2.store, r1.response.tipo).value
      && r2.response.issued in Get(r2.store, r2.response.tipo).value
  {
    var r1 := ConfirmPayment(s, req1, d1, t1);
    var r2 := ConfirmPayment(r1.store, req2, d2, t2);
    var t := r1.response.tipo;
    var l1 := Get(r1.store, t).value;
    assert r1.response.issued in l1 by { assert l1[|l1| - 1] == r1.response.issued; }
    if r2.response.tipo != t {
      assert Get(r2.store, t) == Get(r1.store, t);
    } else {
      var l2 := Get(r2.store, t).value;
      assert l2 == l1 + [r2.response.issued];
    }
  }
}
