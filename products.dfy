/**
 * The product entity: an identity code fixed at construction, a name and a
 * description that may be replaced freely, and a price and a stock that are
 * never negative. `ProductView` is the read-only snapshot of a product that
 * callers outside the inventory receive; `Product` is the mutable entity.
 */
module Products {
  import opened JavaString

  /** The values the read-only accessors of a product return. */
  datatype ProductView = ProductView(
    code: JString,
    name: JString,
    description: JString,
    price: real,
    stock: int)
  {
    /** Price and stock are never negative. */
    predicate Valid()
    {
      price >= 0.0 && stock >= 0
    }

    /**
     * The fixed one-line rendering of a product. The two-decimal text of the
     * price is left to `priceText`.
     */
    function Describe(priceText: real -> string): (r: string)
      ensures |r| == 27 + |Show(code)| + |Show(name)| + |Show(description)| + |priceText(price)| + |IntText(stock)|
      ensures r[0] == '['
    {
      "[" + Show(code) + "] " + Show(name) + " - " + Show(description)
        + " | Precio: " + priceText(price) + " | Stock: " + IntText(stock)
    }
  }

  /**
   * The product the constructor builds: code, name and description exactly as
   * given, and a negative price or stock replaced by 0.
   */
  function NewView(code: JString, name: JString, description: JString, price: real, stock: int): (v: ProductView)
    ensures v.Valid()
    ensures v.code == code && v.name == name && v.description == description
    ensures price >= 0.0 ==> v.price == price
    ensures price < 0.0 ==> v.price == 0.0
    ensures stock >= 0 ==> v.stock == stock
    ensures stock < 0 ==> v.stock == 0
  {
    ProductView(code, name, description, if price < 0.0 then 0.0 else price, if stock < 0 then 0 else stock)
  }

  /** One call to one of the product's mutators. */
  datatype Mutation =
    | Rename(name: JString)
    | Redescribe(description: JString)
    | Restock(stock: int)
    | Reprice(price: real)

  /**
   * The effect of one mutator: name and description are replaced
   * unconditionally; a stock or price is taken only when it is not negative.
   * A mutator never touches the code or any field other than its own.
   */
  function Apply(p: ProductView, m: Mutation): (r: ProductView)
    ensures r.code == p.code
    ensures r.name == (if m.Rename? then m.name else p.name)
    ensures r.description == (if m.Redescribe? then m.description else p.description)
    ensures r.stock == (if m.Restock? && m.stock >= 0 then m.stock else p.stock)
    ensures r.price == (if m.Reprice? && m.price >= 0.0 then m.price else p.price)
    ensures p.Valid() ==> r.Valid()
  {
    match m
    case Rename(n) => p.(name := n)
    case Redescribe(d) => p.(description := d)
    case Restock(v) => if v >= 0 then p.(stock := v) else p
    case Reprice(v) => if v >= 0.0 then p.(price := v) else p
  }

  /** The effect of a sequence of mutator calls, in order. */
  function ApplyAll(p: ProductView, ms: seq<Mutation>): ProductView
    decreases |ms|
  {
    if ms == [] then p else ApplyAll(Apply(p, ms[0]), ms[1..])
  }

  /** Applying two sequences of mutators is applying their concatenation. */
  lemma {:induction false} ApplyAllAppend(p: ProductView, a: seq<Mutation>, b: seq<Mutation>)
    ensures ApplyAll(p, a + b) == ApplyAll(ApplyAll(p, a), b)
    decreases |a|
  {
    if a == [] {
      assert a + b == b;
    } else {
      assert (a + b)[1..] == a[1..] + b;
      ApplyAllAppend(Apply(p, a[0]), a[1..], b);
    }
  }

  /**
   * After construction and any sequence of mutator calls, the code is the one
   * given at construction and price and stock are not negative.
   */
  lemma {:induction false} MutationsKeepInvariant(p: ProductView, ms: seq<Mutation>)
    ensures p.Valid() ==> ApplyAll(p, ms).Valid()
    ensures ApplyAll(p, ms).code == p.code
    decreases |ms|
  {
    if ms != [] {
      MutationsKeepInvariant(Apply(p, ms[0]), ms[1..]);
    }
  }

  /** A freshly built product satisfies the invariant whatever it is given and then mutated with. */
  lemma ConstructedThenMutated(code: JString, name: JString, description: JString, price: real, stock: int, ms: seq<Mutation>)
    ensures ApplyAll(NewView(code, name, description, price, stock), ms).Valid()
    ensures ApplyAll(NewView(code, name, description, price, stock), ms).code == code
  {
    MutationsKeepInvariant(NewView(code, name, description, price, stock), ms);
  }

  /**
   * The rendering starts with the bracketed code followed by the name, and
   * shows the code, the name, the description and the price text.
   */
  lemma DescribeMentions(p: ProductView, priceText: real -> string)
    ensures "[" + Show(p.code) + "] " + Show(p.name) <= p.Describe(priceText)
    ensures Contains(p.Describe(priceText), Show(p.code))
    ensures Contains(p.Describe(priceText), Show(p.name))
    ensures Contains(p.Describe(priceText), Show(p.description))
    ensures Contains(p.Describe(priceText), priceText(p.price))
  {
    var code, name, desc, price, stock := Show(p.code), Show(p.name), Show(p.description), priceText(p.price), IntText(p.stock);
    // the rendering, one concatenation at a time from the left
    var s1 := "[" + code;
    var s2 := s1 + "] ";
    var s3 := s2 + name;
    var s4 := s3 + " - ";
    var s5 := s4 + desc;
    var s6 := s5 + " | Precio: ";
    var s7 := s6 + price;
    var s8 := s7 + " | Stock: ";
    assert p.Describe(priceText) == s8 + stock;
    ContainsInfix(code, [], code, []);
    ContainsRight("[", code, code);
    ContainsAllLeft(s1, "] ", [code]);
    ContainsAllLeft(s2, name, [code]);
    ContainsInfix(name, [], name, []);
    ContainsRight(s2, name, name);
    ContainsAllLeft(s3, " - ", [code, name]);
    ContainsAllLeft(s4, desc, [code, name]);
    ContainsInfix(desc, [], desc, []);
    ContainsRight(s4, desc, desc);
    ContainsAllLeft(s5, " | Precio: ", [code, name, desc]);
    ContainsAllLeft(s6, price, [code, name, desc]);
    ContainsInfix(price, [], price, []);
    ContainsRight(s6, price, price);
    ContainsAllLeft(s7, " | Stock: ", [code, name, desc, price]);
    ContainsAllLeft(s8, stock, [code, name, desc, price]);
  }

  /** The rendering ends with the decimal text of the stock, which reads back as the stock. */
  lemma DescribeEndsWithStock(p: ProductView, priceText: real -> string)
    ensures var s, t := p.Describe(priceText), IntText(p.stock);
      && |t| <= |s|
      && s[|s| - |t|..] == t
      && IsIntText(s[|s| - |t|..])
      && ParseInt(s[|s| - |t|..]) == p.stock
  {
    var s, t := p.Describe(priceText), IntText(p.stock);
    var front := "[" + Show(p.code) + "] " + Show(p.name) + " - " + Show(p.description)
      + " | Precio: " + priceText(p.price) + " | Stock: ";
    assert s == front + t;
    assert s[|s| - |t|..] == t;
    IntTextRoundTrip(p.stock);
  }

  /**
   * The mutable product entity. The code is a constant; the setters update
   * the other fields in place under the rules of `Apply`.
   */
  class Product {
    const code: JString
    var name: JString
    var description: JString
    var price: real
    var stock: int

    /** The product's invariant: price and stock are not negative. */
    ghost predicate Valid()
      reads this
    {
      View().Valid()
    }

    /** What the read-only accessors return: an immutable copy of the fields. */
    function View(): (v: ProductView)
      reads this
      ensures v.code == code && v.name == name && v.description == description
      ensures v.price == price && v.stock == stock
    {
      ProductView(code, name, description, price, stock)
    }

    /** Builds a product, replacing a negative price or stock by 0. */
    constructor (code: JString, name: JString, description: JString, price: real, stock: int)
      ensures View() == NewView(code, name, description, price, stock)
      ensures Valid()
    {
      this.code := code;
      this.name := name;
      this.description := description;
      this.price := if price < 0.0 then 0.0 else price;
      this.stock := if stock < 0 then 0 else stock;
    }

    /** Replaces the name. */
    method SetName(name: JString)
      modifies this
      ensures View() == Apply(old(View()), Rename(name))
      ensures old(Valid()) ==> Valid()
    {
      this.name := name;
    }

    /** Replaces the description. */
    method SetDescription(description: JString)
      modifies this
      ensures View() == Apply(old(View()), Redescribe(description))
      ensures old(Valid()) ==> Valid()
    {
      this.description := description;
    }

    /** Sets the stock, ignoring a negative value. */
    method SetStock(stock: int)
      modifies this
      ensures View() == Apply(old(View()), Restock(stock))
      ensures old(Valid()) ==> Valid()
    {
      if stock >= 0 {
        this.stock := stock;
      }
    }

    /** Sets the price, ignoring a negative value. */
    method UpdatePrice(price: real)
      modifies this
      ensures View() == Apply(old(View()), Reprice(price))
      ensures old(Valid()) ==> Valid()
    {
      if price >= 0.0 {
        this.price := price;
      }
    }
  }

}
