/**
 * The inventory: the aggregate that owns every product, keyed by its
 * normalised code. The commands are given first as functions from the old
 * table to an `Outcome` (the success flag and the new table); the class
 * `Inventory` updates its table in place and is specified by them.
 */
module Inventories {
  import opened Options
  import opened JavaString
  import opened Products

  /** Normalised code to product. */
  type Table = map<string, ProductView>

  /** A command's success flag and the table it leaves behind. */
  datatype Outcome = Outcome(ok: bool, table: Table)

  /**
   * Normalises a code: `null` stays `null`, otherwise the code is trimmed and
   * a code with nothing left is `null` too.
   */
  function Norm(s: JString): (r: JString)
    ensures r.Str? <==> s.Str? && Trim(s.chars) != []
    ensures s.Null? ==> r.Null?
    ensures r.Str? ==> r.chars == Trim(s.chars) && r.chars != [] && IsTrimmed(r.chars)
  {
    if s.Null? then Null
    else
      var t := Trim(s.chars);
      if t == [] then Null else Str(t)
  }

  /**
   * A code is invalid exactly when it is `null` or made of trim spaces only,
   * so `" A1 "` and `"A1"` name the same product; a normalised code
   * normalises to itself.
   */
  lemma NormValid(s: JString)
    ensures Norm(s).Str? <==> s.Str? && !AllTrimSpace(s.chars)
    ensures Norm(s).Str? ==> Contains(s.chars, Norm(s).chars)
    ensures Norm(Norm(s)) == Norm(s)
  {
    if s.Str? {
      TrimInfix(s.chars);
    }
  }

  /**
   * The table invariant: every key is a non-empty trimmed code, is the
   * normalised code of the product stored under it, and every stored product
   * has a price and a stock that are not negative.
   */
  ghost predicate WellFormed(t: Table)
  {
    forall k {:trigger EntryOk(k, t[k])} :: k in t ==> EntryOk(k, t[k])
  }

  /** One entry of a well-formed table. */
  ghost predicate EntryOk(k: string, p: ProductView)
  {
    k != [] && IsTrimmed(k) && Norm(p.code) == Str(k) && p.Valid()
  }

  /** Distinct keys hold distinct products in a well-formed table. */
  lemma WellFormedInjective(t: Table, k1: string, k2: string)
    requires WellFormed(t) && k1 in t && k2 in t && t[k1] == t[k2]
    ensures k1 == k2
  {
    assert EntryOk(k1, t[k1]) && EntryOk(k2, t[k2]);
  }

  // ---------- commands ----------

  /**
   * Creating a product succeeds exactly when the normalised code is valid and
   * new; it then adds that one entry, built by the product's constructor from
   * the normalised code, and leaves every other entry alone.
   */
  function TryAdd(t: Table, code: JString, name: JString, description: JString, price: real, stock: int): (r: Outcome)
    ensures r.ok <==> Norm(code).Str? && Norm(code).chars !in t
    ensures !r.ok ==> r.table == t
    ensures r.ok ==> var key := Norm(code).chars;
      && key in r.table && r.table[key] == NewView(Str(key), name, description, price, stock)
      && (forall k :: k in r.table ==> k in t || k == key)
      && (forall k :: k in t ==> k in r.table && r.table[k] == t[k])
  {
    var cod := Norm(code);
    if cod.Null? || cod.chars in t then Outcome(false, t)
    else Outcome(true, t[cod.chars := NewView(cod, name, description, price, stock)])
  }

  /**
   * Storing a product built elsewhere succeeds exactly when there is one, its
   * normalised code is valid and that code is new; the product is stored as
   * it is, under the normalised code.
   */
  function TryInsert(t: Table, p: Option<ProductView>): (r: Outcome)
    ensures r.ok <==> p.Some? && Norm(p.value.code).Str? && Norm(p.value.code).chars !in t
    ensures !r.ok ==> r.table == t
    ensures r.ok ==> var key := Norm(p.value.code).chars;
      && key in r.table && r.table[key] == p.value
      && (forall k :: k in r.table ==> k in t || k == key)
      && (forall k :: k in t ==> k in r.table && r.table[k] == t[k])
  {
    if p.None? then Outcome(false, t)
    else
      var cod := Norm(p.value.code);
      if cod.Null? || cod.chars in t then Outcome(false, t)
      else Outcome(true, t[cod.chars := p.value])
  }

  /**
   * Deleting succeeds exactly when the normalised code is a key; afterwards
   * that code is absent and every other entry is unchanged.
   */
  function TryRemove(t: Table, code: JString): (r: Outcome)
    ensures r.ok <==> Norm(code).Str? && Norm(code).chars in t
    ensures Norm(code).Str? ==> r.table.Keys == t.Keys - {Norm(code).chars}
    ensures Norm(code).Null? ==> r.table == t
    ensures forall k :: k in r.table ==> k in t && r.table[k] == t[k]
  {
    var cod := Norm(code);
    if cod.Str? && cod.chars in t then Outcome(true, t - {cod.chars})
    else Outcome(false, t)
  }

  /** The mutators an update applies: one per field that is present, in field order. */
  function UpdateMutations(name: JString, description: JString, price: Option<real>, stock: Option<int>): seq<Mutation>
  {
    (if name.Str? then [Rename(name)] else [])
    + (if description.Str? then [Redescribe(description)] else [])
    + (if price.Some? then [Reprice(price.value)] else [])
    + (if stock.Some? then [Restock(stock.value)] else [])
  }

  /**
   * Updating succeeds exactly when the normalised code is a key; it then
   * applies the present fields to that one product through its mutators and
   * leaves every other entry alone.
   */
  function TryUpdate(t: Table, code: JString, name: JString, description: JString, price: Option<real>, stock: Option<int>): (r: Outcome)
    ensures r.ok <==> Norm(code).Str? && Norm(code).chars in t
    ensures !r.ok ==> r.table == t
    ensures r.ok ==> var key := Norm(code).chars;
      && r.table.Keys == t.Keys
      && r.table[key] == ApplyAll(t[key], UpdateMutations(name, description, price, stock))
      && (forall k :: k in t && k != key ==> k in r.table && r.table[k] == t[k])
  {
    var cod := Norm(code);
    if cod.Null? || cod.chars !in t then Outcome(false, t)
    else
      var p := t[cod.chars];
      Outcome(true, t[cod.chars := ApplyAll(p, UpdateMutations(name, description, price, stock))])
  }

  /**
   * Setting the price by code succeeds exactly when the price is not negative
   * and the normalised code is a key; it then sets that product's price and
   * changes nothing else.
   */
  function TrySetPrice(t: Table, code: JString, price: real): (r: Outcome)
    ensures r.ok <==> price >= 0.0 && Norm(code).Str? && Norm(code).chars in t
    ensures !r.ok ==> r.table == t
    ensures r.ok ==> var key := Norm(code).chars;
      && r.table.Keys == t.Keys
      && r.table[key].price == price
      && r.table[key].(price := t[key].price) == t[key]
      && (forall k :: k in t && k != key ==> k in r.table && r.table[k] == t[k])
  {
    if price < 0.0 then Outcome(false, t)
    else
      var cod := Norm(code);
      if cod.Null? || cod.chars !in t then Outcome(false, t)
      else Outcome(true, t[cod.chars := Apply(t[cod.chars], Reprice(price))])
  }

  /**
   * Setting the stock by code succeeds exactly when the stock is not negative
   * and the normalised code is a key; it then sets that product's stock and
   * changes nothing else.
   */
  function TrySetStock(t: Table, code: JString, stock: int): (r: Outcome)
    ensures r.ok <==> stock >= 0 && Norm(code).Str? && Norm(code).chars in t
    ensures !r.ok ==> r.table == t
    ensures r.ok ==> var key := Norm(code).chars;
      && r.table.Keys == t.Keys
      && r.table[key].stock == stock
      && r.table[key].(stock := t[key].stock) == t[key]
      && (forall k :: k in t && k != key ==> k in r.table && r.table[k] == t[k])
  {
    if stock < 0 then Outcome(false, t)
    else
      var cod := Norm(code);
      if cod.Null? || cod.chars !in t then Outcome(false, t)
      else Outcome(true, t[cod.chars := Apply(t[cod.chars], Restock(stock))])
  }

  /** One command of the inventory, with its arguments. */
  datatype Command =
    | Create(code: JString, name: JString, description: JString, price: real, stock: int)
    | Insert(product: Option<ProductView>)
    | Delete(code: JString)
    | Update(code: JString, name: JString, description: JString, newPrice: Option<real>, newStock: Option<int>)
    | SetPrice(code: JString, price: real)
    | SetStock(code: JString, stock: int)

  /** The outcome of one command. */
  function Step(t: Table, c: Command): Outcome
  {
    match c
    case Create(code, name, description, price, stock) => TryAdd(t, code, name, description, price, stock)
    case Insert(p) => TryInsert(t, p)
    case Delete(code) => TryRemove(t, code)
    case Update(code, name, description, price, stock) => TryUpdate(t, code, name, description, price, stock)
    case SetPrice(code, price) => TrySetPrice(t, code, price)
    case SetStock(code, stock) => TrySetStock(t, code, stock)
  }

  /** The table after a sequence of commands, in order. */
  function Run(t: Table, cs: seq<Command>): Table
    decreases |cs|
  {
    if cs == [] then t else Run(Step(t, cs[0]).table, cs[1..])
  }

  /** A product handed in from outside keeps the product invariant, as every built product does. */
  predicate Admissible(c: Command)
  {
    c.Insert? && c.product.Some? ==> c.product.value.Valid()
  }

  /** Creating a product keeps the table invariant. */
  lemma CreateKeepsWellFormed(t: Table, code: JString, name: JString, description: JString, price: real, stock: int)
    requires WellFormed(t)
    ensures WellFormed(TryAdd(t, code, name, description, price, stock).table)
  {
    var r := TryAdd(t, code, name, description, price, stock);
    if r.ok {
      var key := Norm(code).chars;
      assert EntryOk(key, r.table[key]) by {
        assert Norm(Str(key)) == Str(key);
      }
      forall k | k in r.table
        ensures EntryOk(k, r.table[k])
      {
        if k != key {
          assert EntryOk(k, t[k]);
        }
      }
    }
  }

  /** Storing a product that keeps the product invariant keeps the table invariant. */
  lemma InsertKeepsWellFormed(t: Table, p: Option<ProductView>)
    requires WellFormed(t) && (p.Some? ==> p.value.Valid())
    ensures WellFormed(TryInsert(t, p).table)
  {
    var r := TryInsert(t, p);
    if r.ok {
      var key := Norm(p.value.code).chars;
      forall k | k in r.table
        ensures EntryOk(k, r.table[k])
      {
        if k != key {
          assert EntryOk(k, t[k]);
        }
      }
    }
  }

  /** Deleting keeps the table invariant. */
  lemma DeleteKeepsWellFormed(t: Table, code: JString)
    requires WellFormed(t)
    ensures WellFormed(TryRemove(t, code).table)
  {
    var r := TryRemove(t, code);
    forall k | k in r.table
      ensures EntryOk(k, r.table[k])
    {
      assert EntryOk(k, t[k]);
    }
  }

  /**
   * A product changed only through its mutators keeps its code and the
   * product invariant, so storing it back under its key keeps the table
   * invariant.
   */
  lemma ReplaceKeepsWellFormed(t: Table, u: Table, key: string)
    requires WellFormed(t) && key in t && key in u
    requires forall k :: k in u ==> k in t
    requires forall k :: k in t && k != key ==> k in u && u[k] == t[k]
    requires u[key].code == t[key].code && u[key].Valid()
    ensures WellFormed(u)
  {
    forall k | k in u
      ensures EntryOk(k, u[k])
    {
      assert EntryOk(k, t[k]);
    }
  }

  /** Updating keeps the table invariant. */
  lemma UpdateKeepsWellFormed(t: Table, code: JString, name: JString, description: JString, price: Option<real>, stock: Option<int>)
    requires WellFormed(t)
    ensures WellFormed(TryUpdate(t, code, name, description, price, stock).table)
  {
    var r := TryUpdate(t, code, name, description, price, stock);
    if r.ok {
      var key := Norm(code).chars;
      assert EntryOk(key, t[key]);
      MutationsKeepInvariant(t[key], UpdateMutations(name, description, price, stock));
      ReplaceKeepsWellFormed(t, r.table, key);
    }
  }

  /** Every command keeps the table invariant. */
  lemma StepKeepsWellFormed(t: Table, c: Command)
    requires WellFormed(t) && Admissible(c)
    ensures WellFormed(Step(t, c).table)
  {
    match c
    case Create(code, name, description, price, stock) =>
      CreateKeepsWellFormed(t, code, name, description, price, stock);
    case Insert(p) =>
      InsertKeepsWellFormed(t, p);
    case Delete(code) =>
      DeleteKeepsWellFormed(t, code);
    case Update(code, name, description, price, stock) =>
      UpdateKeepsWellFormed(t, code, name, description, price, stock);
    case SetPrice(code, price) =>
      var r := TrySetPrice(t, code, price);
      if r.ok {
        var key := Norm(code).chars;
        assert EntryOk(key, t[key]);
        ReplaceKeepsWellFormed(t, r.table, key);
      }
    case SetStock(code, stock) =>
      var r := TrySetStock(t, code, stock);
      if r.ok {
        var key := Norm(code).chars;
        assert EntryOk(key, t[key]);
        ReplaceKeepsWellFormed(t, r.table, key);
      }
  }

  /** Any sequence of commands keeps the table invariant. */
  lemma {:induction false} RunKeepsWellFormed(t: Table, cs: seq<Command>)
    requires WellFormed(t)
    requires forall i :: 0 <= i < |cs| ==> Admissible(cs[i])
    ensures WellFormed(Run(t, cs))
    decreases |cs|
  {
    if cs != [] {
      StepKeepsWellFormed(t, cs[0]);
      RunKeepsWellFormed(Step(t, cs[0]).table, cs[1..]);
    }
  }

  // ---------- queries ----------

  /** Looking a code up: present exactly when its normalised form is a key. */
  function Lookup(t: Table, code: JString): (r: Option<ProductView>)
    ensures r.Some? <==> Norm(code).Str? && Norm(code).chars in t
    ensures r.Some? ==> r.value == t[Norm(code).chars]
  {
    var cod := Norm(code);
    if cod.Str? && cod.chars in t then Some(t[cod.chars]) else None
  }

  /**
   * The text search's test: the lower-cased query occurs in the lower-cased
   * name or in the lower-cased description, a missing one reading as empty.
   */
  predicate Matches(p: ProductView, query: string): (b: bool)
    ensures query == [] ==> b
    ensures p.name.Null? && p.description.Null? ==> (b <==> query == [])
  {
    var q := Lower(query);
    var n := Lower(OrEmpty(p.name));
    assert |q| == |query|;
    assert q == [] ==> q <= n[0..];
    Contains(n, q) || Contains(Lower(OrEmpty(p.description)), q)
  }

  /** `r` holds the products stored under `keys`, each exactly once. */
  ghost predicate ListsExactly(r: seq<ProductView>, t: Table, keys: set<string>)
  {
    && |r| == |keys|
    && (forall i, j :: 0 <= i < j < |r| ==> r[i] != r[j])
    && (forall v :: v in r <==> exists k :: k in keys && k in t && t[k] == v)
  }

  /**
   * Collecting a well-formed table key by key: appending the product under a
   * key not yet visited keeps the listing exact.
   */
  lemma ListsExactlyStep(r: seq<ProductView>, t: Table, keys: set<string>, k: string)
    requires WellFormed(t) && keys <= t.Keys && k in t && k !in keys
    requires ListsExactly(r, t, keys)
    ensures ListsExactly(r + [t[k]], t, keys + {k})
  {
    if t[k] in r {
      var k' :| k' in keys && k' in t && t[k'] == t[k];
      WellFormedInjective(t, k', k);
    }
    assert |keys + {k}| == |keys| + 1;
  }

  /** The keys a text search selects: none for a missing or blank query. */
  ghost function MatchingKeys(t: Table, query: JString): set<string>
  {
    if query.Null? || IsBlank(query.chars) then {}
    else Selected(t, t.Keys, query.chars)
  }

  /** The keys among `keys` whose product matches `query`. */
  ghost function Selected(t: Table, keys: set<string>, query: string): set<string>
  {
    set k | k in keys && k in t && Matches(t[k], query)
  }

  /** Visiting one more key adds it to the selection exactly when its product matches. */
  lemma SelectedStep(t: Table, keys: set<string>, k: string, query: string)
    requires k in t
    ensures Selected(t, keys + {k}, query) == Selected(t, keys, query) + (if Matches(t[k], query) then {k} else {})
  {
  }

  /** Searching ignores the case of the query. */
  lemma MatchesIgnoresQueryCase(p: ProductView, query: string)
    ensures Matches(p, query) <==> Matches(p, Lower(query))
  {
    LowerIdempotent(query);
  }

  /** The entries of the table whose keys are in `keys`. */
  function Restrict(t: Table, keys: set<string>): Table
  {
    map k | k in keys && k in t :: t[k]
  }

  /** The worth of one product: price times stock. */
  function LineValue(p: ProductView): real
  {
    p.price * (p.stock as real)
  }

  /** The sum of price times stock over the table, whatever the order. */
  ghost function TotalValue(t: Table): real
    decreases |t|
  {
    if t == map[] then 0.0
    else
      var k :| k in t;
      assert (t - {k}).Keys == t.Keys - {k};
      LineValue(t[k]) + TotalValue(t - {k})
  }

  /** The total can be taken with any entry first: it does not depend on iteration order. */
  lemma {:induction false} TotalValueRemove(t: Table, k: string)
    requires k in t
    ensures TotalValue(t) == LineValue(t[k]) + TotalValue(t - {k})
    decreases |t|
  {
    var j :| j in t && TotalValue(t) == LineValue(t[j]) + TotalValue(t - {j});
    if j != k {
      assert (t - {j}).Keys == t.Keys - {j};
      assert (t - {k}).Keys == t.Keys - {k};
      TotalValueRemove(t - {j}, k);
      TotalValueRemove(t - {k}, j);
      assert t - {j} - {k} == t - {k} - {j};
    }
  }

  /** A product that keeps its invariant is worth at least 0. */
  lemma LineValueNonNegative(p: ProductView)
    requires p.Valid()
    ensures LineValue(p) >= 0.0
  {
  }

  /** When every product keeps its invariant, the total is at least 0. */
  lemma {:induction false} TotalValueNonNegative(t: Table)
    requires forall k :: k in t ==> t[k].Valid()
    ensures TotalValue(t) >= 0.0
    decreases |t|
  {
    if t != map[] {
      var k :| k in t;
      TotalValueRemove(t, k);
      var rest := t - {k};
      assert rest.Keys == t.Keys - {k};
      TotalValueNonNegative(rest);
      LineValueNonNegative(t[k]);
    }
  }

  // ---------- properties of the commands ----------

  /**
   * A successful update leaves the code alone, replaces the name and the
   * description that are present, and takes a price or stock that is present
   * and not negative; everything absent or negative is left as it was.
   */
  lemma UpdateSetsPresentFields(t: Table, code: JString, name: JString, description: JString, price: Option<real>, stock: Option<int>)
    ensures var r := TryUpdate(t, code, name, description, price, stock);
      r.ok ==> var key := Norm(code).chars;
        && r.table[key].code == t[key].code
        && r.table[key].name == (if name.Str? then name else t[key].name)
        && r.table[key].description == (if description.Str? then description else t[key].description)
        && r.table[key].price == (if price.Some? && price.value >= 0.0 then price.value else t[key].price)
        && r.table[key].stock == (if stock.Some? && stock.value >= 0 then stock.value else t[key].stock)
  {
    var r := TryUpdate(t, code, name, description, price, stock);
    if r.ok {
      UpdateAppliesMutations(t[Norm(code).chars], name, description, price, stock);
    }
  }

  /** Two codes with the same normalised form name one product: the second creation fails and changes nothing. */
  lemma CreateCollidesAfterTrim(t: Table, code1: JString, code2: JString, name: JString, description: JString, price: real, stock: int)
    requires Norm(code1) == Norm(code2)
    ensures var u := TryAdd(t, code1, name, description, price, stock).table;
      TryAdd(u, code2, name, description, price, stock) == Outcome(false, u)
  {
  }

  /** The codes `" A1 "` and `"A1"` normalise alike, while `"   "` and `null` are no code. */
  lemma PaddedCodeIsTheSameCode()
    ensures Norm(Str(" A1 ")) == Norm(Str("A1")) == Str("A1")
    ensures Norm(Str("   ")) == Null && Norm(Null) == Null
  {
    assert TrimStart(" A1 ") == "A1 " by {
      assert TrimStart("A1 ") == "A1 ";
    }
    assert TrimEnd("A1 ") == "A1" by {
      assert TrimEnd("A1") == "A1";
    }
    assert TrimStart("A1") == "A1";
    assert TrimStart("   ") == [] by {
      assert TrimStart(" ") == [];
      assert TrimStart("  ") == [];
    }
  }

  /**
   * Codes are normalised with `trim`, not with `isBlank`: an ideographic space
   * is blank to the search but survives `trim`, so it is accepted as a code.
   */
  lemma BlankCodeAccepted(name: JString, description: JString, price: real, stock: int)
    ensures IsBlank("\U{3000}")
    ensures TryAdd(map[], Str("\U{3000}"), name, description, price, stock).ok
  {
    assert TrimStart("\U{3000}") == "\U{3000}";
    assert TrimEnd("\U{3000}") == "\U{3000}";
  }

  /** A created product is found by its code with the constructor's values. */
  lemma CreateThenFind(t: Table, code: JString, name: JString, description: JString, price: real, stock: int)
    ensures var r := TryAdd(t, code, name, description, price, stock);
      r.ok ==> Lookup(r.table, code) == Some(NewView(Norm(code), name, description, price, stock))
  {
  }

  /** After a deletion the code is no longer found, and deleting again fails. */
  lemma DeleteThenFindNothing(t: Table, code: JString)
    ensures var u := TryRemove(t, code).table;
      && Lookup(u, code) == None
      && TryRemove(u, code) == Outcome(false, u)
  {
  }

  /** Two products at price 100 with stock 2 and price 50 with stock 3 are worth 350 in all. */
  lemma ReportOfTwo()
    ensures var t := map["P1" := ProductView(Str("P1"), Null, Null, 100.0, 2),
                         "P2" := ProductView(Str("P2"), Null, Null, 50.0, 3)];
      TotalValue(t) == 350.0
  {
    var t := map["P1" := ProductView(Str("P1"), Null, Null, 100.0, 2),
                 "P2" := ProductView(Str("P2"), Null, Null, 50.0, 3)];
    TotalValueRemove(t, "P1");
    var u := t - {"P1"};
    assert u == map["P2" := t["P2"]];
    TotalValueRemove(u, "P2");
    assert u - {"P2"} == map[];
  }

  /** The name "Mouse" is found by the query "mouse": the search ignores case. */
  lemma SearchFindsByName()
    ensures Matches(ProductView(Str("P-001"), Str("Mouse"), Str("Inal\U{E1}mbrico"), 15990.0, 20), "mouse")
  {
    var name := "mouse";
    LowerNoCapitals(name);
    assert Lower("Mouse") == name by {
      LowerConcat("M", name[1..]);
      assert "Mouse" == "M" + name[1..];
      assert Lower("M") == "m";
      assert "m" + name[1..] == name;
    }
    ContainsInfix(name, [], name, []);
  }

  /** The description "Inalámbrico" is found by the query "inalámbrico": the search ignores case. */
  lemma SearchFindsByDescription()
    ensures Matches(ProductView(Str("P-001"), Str("Mouse"), Str("Inal\U{E1}mbrico"), 15990.0, 20), "inal\U{E1}mbrico")
  {
    var desc := "inal\U{E1}mbrico";
    LowerNoCapitals(desc);
    assert Lower("Inal\U{E1}mbrico") == desc by {
      LowerConcat("I", desc[1..]);
      assert "Inal\U{E1}mbrico" == "I" + desc[1..];
      assert Lower("I") == "i";
      assert "i" + desc[1..] == desc;
    }
    ContainsInfix(desc, [], desc, []);
  }

  /** A query that occurs in neither field selects nothing. */
  lemma SearchMissesOtherText()
    ensures !Matches(ProductView(Str("P-001"), Str("Mouse"), Str("Inal\U{E1}mbrico"), 15990.0, 20), "teclado")
  {
    var name, desc := "mouse", "inal\U{E1}mbrico";
    LowerNoCapitals("teclado");
    LowerNoCapitals(name);
    LowerNoCapitals(desc);
    LowerConcat("M", name[1..]);
    LowerConcat("I", desc[1..]);
    assert "Mouse" == "M" + name[1..];
    assert "Inal\U{E1}mbrico" == "I" + desc[1..];
    NotContainsFirst(name, "teclado");
    NotContainsFirst(desc, "teclado");
  }

  // ---------- the aggregate ----------

  /** The inventory: the product table, updated in place by the commands. */
  class Inventory {
    var products: Table

    ghost predicate Valid()
      reads this
    {
      WellFormed(products)
    }

    /** An empty inventory. */
    constructor ()
      ensures Valid() && products == map[]
    {
      products := map[];
    }

    /** Creates and stores a product under its normalised code, if that code is valid and new. */
    method AddProduct(code: JString, name: JString, description: JString, price: real, stock: int) returns (ok: bool)
      requires Valid()
      modifies this
      ensures Valid()
      ensures Outcome(ok, products) == TryAdd(old(products), code, name, description, price, stock)
    {
      StepKeepsWellFormed(products, Create(code, name, description, price, stock));
      var cod := Norm(code);
      if cod.Null? || cod.chars in products {
        return false;
      }
      products := products[cod.chars := NewView(cod, name, description, price, stock)];
      return true;
    }

    /** Removes the product with this code, reporting whether there was one. */
    method RemoveByCode(code: JString) returns (ok: bool)
      requires Valid()
      modifies this
      ensures Valid()
      ensures Outcome(ok, products) == TryRemove(old(products), code)
    {
      StepKeepsWellFormed(products, Delete(code));
      var cod := Norm(code);
      ok := cod.Str? && cod.chars in products;
      if ok {
        products := products - {cod.chars};
      }
    }

    /** Applies the fields that are present to the product with this code. */
    method UpdateProduct(code: JString, name: JString, description: JString, price: Option<real>, stock: Option<int>)
      returns (ok: bool)
      requires Valid()
      modifies this
      ensures Valid()
      ensures Outcome(ok, products) == TryUpdate(old(products), code, name, description, price, stock)
    {
      StepKeepsWellFormed(products, Update(code, name, description, price, stock));
      var cod := Norm(code);
      if cod.Null? || cod.chars !in products {
        return false;
      }
      var p := products[cod.chars];
      UpdateAppliesMutations(p, name, description, price, stock);
      if name.Str? {
        p := Apply(p, Rename(name));
      }
      if description.Str? {
        p := Apply(p, Redescribe(description));
      }
      if price.Some? {
        p := Apply(p, Reprice(price.value));
      }
      if stock.Some? {
        p := Apply(p, Restock(stock.value));
      }
      products := products[cod.chars := p];
      return true;
    }

    /** The product with this code, as an immutable copy. */
    function FindByCode(code: JString): (r: Option<ProductView>)
      reads this
      ensures r == Lookup(products, code)
    {
      Lookup(products, code)
    }

    /**
     * The products whose name or description contains the query, ignoring
     * case: each selected product exactly once, and none for a missing or
     * blank query.
     */
    method FindByName(query: JString) returns (r: seq<ProductView>)
      requires Valid()
      ensures ListsExactly(r, products, MatchingKeys(products, query))
    {
      if query.Null? || IsBlank(query.chars) {
        return [];
      }
      var q := query.chars;
      var rest := products.Keys;
      ghost var done: set<string> := {};
      r := [];
      while rest != {}
        invariant rest !! done && rest + done == products.Keys
        invariant ListsExactly(r, products, Selected(products, done, q))
        decreases rest
      {
        var k :| k in rest;
        SelectedStep(products, done, k, q);
        if Matches(products[k], q) {
          ListsExactlyStep(r, products, Selected(products, done, q), k);
          r := r + [products[k]];
        }
        rest := rest - {k};
        done := done + {k};
      }
    }

    /** A snapshot of every stored product, each exactly once. */
    method ListAll() returns (r: seq<ProductView>)
      requires Valid()
      ensures ListsExactly(r, products, products.Keys)
      ensures |r| == |products|
    {
      var rest := products.Keys;
      ghost var done: set<string> := {};
      r := [];
      while rest != {}
        invariant rest !! done && rest + done == products.Keys
        invariant ListsExactly(r, products, done)
        decreases rest
      {
        var k :| k in rest;
        ListsExactlyStep(r, products, done, k);
        r := r + [products[k]];
        rest := rest - {k};
        done := done + {k};
      }
    }

    /** The number of products and the sum of price times stock over all of them. */
    method Report() returns (count: nat, value: real)
      ensures count == |products|
      ensures value == TotalValue(products)
    {
      count := |products|;
      value := 0.0;
      var rest := products.Keys;
      assert Restrict(products, rest) == products;
      while rest != {}
        invariant rest <= products.Keys
        invariant value + TotalValue(Restrict(products, rest)) == TotalValue(products)
        decreases rest
      {
        var k :| k in rest;
        var m := Restrict(products, rest);
        TotalValueRemove(m, k);
        assert m - {k} == Restrict(products, rest - {k});
        value := value + LineValue(products[k]);
        rest := rest - {k};
      }
      assert Restrict(products, rest) == map[];
    }

    // ---------- adapters ----------

    /** Stores a product built elsewhere, under its normalised code. */
    method Add(p: Product?) returns (ok: bool)
      requires Valid()
      requires p != null ==> p.Valid()
      modifies this
      ensures Valid()
      ensures Outcome(ok, products) == TryInsert(old(products), if p == null then None else Some(p.View()))
    {
      StepKeepsWellFormed(products, Insert(if p == null then None else Some(p.View())));
      if p == null {
        return false;
      }
      var cod := Norm(p.code);
      if cod.Null? {
        return false;
      }
      if cod.chars in products {
        return false;
      }
      products := products[cod.chars := p.View()];
      return true;
    }

    /** Removes by code, as `RemoveByCode`. */
    method Remove(code: JString) returns (ok: bool)
      requires Valid()
      modifies this
      ensures Valid()
      ensures Outcome(ok, products) == TryRemove(old(products), code)
    {
      ok := RemoveByCode(code);
    }

    /** Sets the price of the product with this code, refusing a negative price. */
    method UpdatePrice(code: JString, price: real) returns (ok: bool)
      requires Valid()
      modifies this
      ensures Valid()
      ensures Outcome(ok, products) == TrySetPrice(old(products), code, price)
    {
      StepKeepsWellFormed(products, SetPrice(code, price));
      if price < 0.0 {
        return false;
      }
      var cod := Norm(code);
      if cod.Null? || cod.chars !in products {
        return false;
      }
      products := products[cod.chars := Apply(products[cod.chars], Reprice(price))];
      return true;
    }

    /** Sets the stock of the product with this code, refusing a negative stock. */
    method UpdateStock(code: JString, stock: int) returns (ok: bool)
      requires Valid()
      modifies this
      ensures Valid()
      ensures Outcome(ok, products) == TrySetStock(old(products), code, stock)
    {
      StepKeepsWellFormed(products, SetStock(code, stock));
      if stock < 0 {
        return false;
      }
      var cod := Norm(code);
      if cod.Null? || cod.chars !in products {
        return false;
      }
      products := products[cod.chars := Apply(products[cod.chars], Restock(stock))];
      return true;
    }

    /** The text search, as `FindByName`. */
    method FindByText(query: JString) returns (r: seq<ProductView>)
      requires Valid()
      ensures ListsExactly(r, products, MatchingKeys(products, query))
    {
      r := FindByName(query);
    }
  }

  /** Applying the present fields one after the other is applying `UpdateMutations`. */
  lemma UpdateAppliesMutations(p: ProductView, name: JString, description: JString, price: Option<real>, stock: Option<int>)
    ensures ApplyAll(p, UpdateMutations(name, description, price, stock))
      == var p1 := if name.Str? then Apply(p, Rename(name)) else p;
         var p2 := if description.Str? then Apply(p1, Redescribe(description)) else p1;
         var p3 := if price.Some? then Apply(p2, Reprice(price.value)) else p2;
         if stock.Some? then Apply(p3, Restock(stock.value)) else p3
  {
    var a := if name.Str? then [Rename(name)] else [];
    var b := if description.Str? then [Redescribe(description)] else [];
    var c := if price.Some? then [Reprice(price.value)] else [];
    var d := if stock.Some? then [Restock(stock.value)] else [];
    assert UpdateMutations(name, description, price, stock) == a + b + c + d;
    ApplyAllAppend(p, a + b + c, d);
    ApplyAllAppend(p, a + b, c);
    ApplyAllAppend(p, a, b);
  }

}
