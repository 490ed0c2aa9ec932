/** The product catalog of the registration page: an insertion-ordered list
    of product records, kept in memory and mirrored after every change into
    one stored snapshot (the browser's local storage under the key
    "artesanato_produtos"). */
module Catalog {
  import opened Sequences
  import opened Decimal

  datatype Option<T> = None | Some(value: T)

  /** The fields the registration form hands to `AddProduct`. */
  datatype Draft = Draft(
    categoria: string,
    produto: string,
    preco: string,
    descricao: string,
    foto: string)

  /** A stored product record. `id` is the creation clock in milliseconds
      written in decimal; `dataCadastro` is the creation timestamp text. */
  datatype Product = Product(
    id: string,
    categoria: string,
    produto: string,
    preco: string,
    descricao: string,
    foto: string,
    dataCadastro: string)

  /** What loading yields from the stored snapshot: the snapshot itself, or
      the empty list when nothing is stored. */
  function Loaded(stored: Option<seq<Product>>): (r: seq<Product>)
    ensures stored.None? ==> r == []
    ensures stored.Some? ==> r == stored.value
  {
    match stored
    case None => []
    case Some(ps) => ps
  }

  /** The records whose id differs from `id`, in their original order. */
  function WithoutId(ps: seq<Product>, id: string): (r: seq<Product>)
    ensures |r| <= |ps|
    ensures forall i :: 0 <= i < |r| ==> r[i] in ps && r[i].id != id
  {
    var r := Filter(ps, (p: Product) => p.id != id);
    forall i | 0 <= i < |r| ensures r[i] in ps {
      FilterMembership(ps, (p: Product) => p.id != id, r[i]);
    }
    r
  }

  /** The records of category `categoria`, in their original order. */
  function InCategory(ps: seq<Product>, categoria: string): (r: seq<Product>)
    ensures |r| <= |ps|
    ensures forall i :: 0 <= i < |r| ==> r[i] in ps && r[i].categoria == categoria
  {
    var r := Filter(ps, (p: Product) => p.categoria == categoria);
    forall i | 0 <= i < |r| ensures r[i] in ps {
      FilterMembership(ps, (p: Product) => p.categoria == categoria, r[i]);
    }
    r
  }

  /** Exactly the records with another id survive a removal. */
  lemma WithoutIdMembers(ps: seq<Product>, id: string, p: Product)
    ensures p in WithoutId(ps, id) <==> p in ps && p.id != id
  {
    FilterMembership(ps, (q: Product) => q.id != id, p);
  }

  /** Removal keeps the survivors in their original relative order. */
  lemma WithoutIdAppend(a: seq<Product>, b: seq<Product>, id: string)
    ensures WithoutId(a + b, id) == WithoutId(a, id) + WithoutId(b, id)
  {
    FilterAppend(a, b, (p: Product) => p.id != id);
  }

  /** Removal leaves the list as it was exactly when no record has that id. */
  lemma WithoutIdUnchanged(ps: seq<Product>, id: string)
    ensures WithoutId(ps, id) == ps <==> forall i :: 0 <= i < |ps| ==> ps[i].id != id
  {
    FilterUnchanged(ps, (p: Product) => p.id != id);
  }

  /** Removing the same id twice is removing it once. */
  lemma WithoutIdIdempotent(ps: seq<Product>, id: string)
    ensures WithoutId(WithoutId(ps, id), id) == WithoutId(ps, id)
  {
    FilterIdempotent(ps, (p: Product) => p.id != id);
  }

  /** Exactly the records of the category are selected. */
  lemma InCategoryMembers(ps: seq<Product>, categoria: string, p: Product)
    ensures p in InCategory(ps, categoria) <==> p in ps && p.categoria == categoria
  {
    FilterMembership(ps, (q: Product) => q.categoria == categoria, p);
  }

  /** Selection by category keeps the records in their original order. */
  lemma InCategoryAppend(a: seq<Product>, b: seq<Product>, categoria: string)
    ensures InCategory(a + b, categoria) == InCategory(a, categoria) + InCategory(b, categoria)
  {
    FilterAppend(a, b, (p: Product) => p.categoria == categoria);
  }

  /** A record appended to the catalog appears last when its own category is
      listed, after the earlier records of that category. */
  lemma AddedIsLastOfItsCategory(ps: seq<Product>, p: Product)
    ensures InCategory(ps + [p], p.categoria) == InCategory(ps, p.categoria) + [p]
  {
    InCategoryAppend(ps, [p], p.categoria);
    assert [p][1..] == [];
  }

  /** Records added at distinct clock readings get distinct ids. */
  lemma DistinctClocksDistinctIds(d1: Draft, d2: Draft, now1: nat, now2: nat, at1: string, at2: string)
    requires now1 != now2
    ensures NewProduct(d1, now1, at1).id != NewProduct(d2, now2, at2).id
  {
  }

  /** The record `AddProduct` builds: the draft's fields, the clock in
      milliseconds as its decimal id, and the creation timestamp. */
  function NewProduct(d: Draft, now: nat, createdAt: string): (p: Product)
    ensures p.categoria == d.categoria && p.produto == d.produto && p.preco == d.preco
    ensures p.descricao == d.descricao && p.foto == d.foto && p.dataCadastro == createdAt
    ensures p.id != [] && AllDigits(p.id) && DigitsValue(p.id) == now
    ensures p.id[0] == '0' <==> now == 0
  {
    DecimalRoundTrip(now);
    Product(DecimalString(now), d.categoria, d.produto, d.preco, d.descricao, d.foto, createdAt)
  }

  class ProductManager {
    /** The in-memory catalog. */
    var products: seq<Product>
    /** The stored snapshot, or None when nothing has been stored yet. */
    var stored: Option<seq<Product>>

    /** Loading the snapshot gives back the in-memory catalog. */
    ghost predicate Valid()
      reads this
    {
      Loaded(stored) == products
    }

    /** Starts from whatever snapshot storage holds (`saved`) and loads it. */
    constructor (saved: Option<seq<Product>>)
      ensures stored == saved && products == Loaded(saved)
      ensures Valid()
    {
      stored := saved;
      products := [];
      new;
      products := LoadProducts();
    }

    /** The stored snapshot, or the empty list when none exists. */
    method LoadProducts() returns (r: seq<Product>)
      ensures r == Loaded(stored)
      ensures Valid() ==> r == products
    {
      match stored
      case None => r := [];
      case Some(ps) => r := ps;
    }

    /** Overwrites the snapshot with the whole in-memory catalog. */
    method SaveProducts()
      modifies this`stored
      ensures stored == Some(products)
      ensures Valid()
    {
      stored := Some(products);
    }

    /** Builds a record from `d`, the clock `now` (milliseconds) and the
        timestamp text `createdAt`, appends it and saves. */
    method AddProduct(d: Draft, now: nat, createdAt: string) returns (p: Product)
      modifies this
      ensures p == NewProduct(d, now, createdAt)
      ensures products == old(products) + [p]
      ensures stored == Some(products)
      ensures Valid()
    {
      p := NewProduct(d, now, createdAt);
      products := products + [p];
      SaveProducts();
    }

    /** Drops every record whose id is `id` and saves. */
    method RemoveProduct(id: string)
      modifies this
      ensures products == WithoutId(old(products), id)
      ensures stored == Some(products)
      ensures Valid()
    {
      products := WithoutId(products, id);
      SaveProducts();
    }

    /** The whole catalog when `categoria` is empty, otherwise the records of
        that category in catalog order. */
    function GetProducts(categoria: string): (r: seq<Product>)
      reads this
      ensures categoria == "" ==> r == products
      ensures categoria != "" ==> r == InCategory(products, categoria)
      ensures |r| <= |products|
      ensures forall i :: 0 <= i < |r| ==> r[i] in products
      ensures categoria != "" ==> forall i :: 0 <= i < |r| ==> r[i].categoria == categoria
    {
      if categoria == "" then products
      else InCategory(products, categoria)
    }
  }
}
