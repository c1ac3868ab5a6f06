/** The content-access wrappers around the content store's client: one read per
    content kind, the date sorts three of them apply, and the two product writes.

    The store client is foreign network I/O: each wrapper is modelled by the
    request it issues and by what it makes of the store's answer, a
    `StoreResult` (the awaited value, or the value the awaited call threw). */
module Cosmic {
  import opened Wrappers
  import opened Js
  import opened DateSort

  /** What the awaited client call produced. */
  datatype StoreResult<T> = Answered(value: T) | Failed(error: JsValue)

  /** What a wrapper does for its caller: returns a value or throws
      `new Error(message)`. */
  datatype Outcome<T> = Returned(value: T) | Threw(message: string)

  /** A request to the store. `Find` carries the object type and the equality
      filters on metadata; the field projection and reference depth that every
      read also asks for are not modelled. */
  datatype Request =
    | Find(typeTag: string, filter: seq<(string, JsValue)>)
    | FindOne(typeTag: string, slug: string)
    | InsertOne(typeTag: string, title: JsValue, slugValue: JsValue, metadata: JsValue)
    | UpdateOne(id: string, metadata: JsValue)

  /** The collection reads. */
  datatype CollectionQuery =
    | Artisans
    | FeaturedArtisans
    | Products
    | FeaturedProducts
    | ProductsByArtisan(artisanId: string)
    | Workshops
    | CulturalStories
    | MarketInsights
    | FinancingOpportunities
  {
    /** The request the wrapper sends. */
    function Request(): Request {
      match this
      case Artisans => Find("artisans", [])
      case FeaturedArtisans => Find("artisans", [("metadata.featured", Bool(true))])
      case Products => Find("products", [])
      case FeaturedProducts => Find("products", [("metadata.featured", Bool(true))])
      case ProductsByArtisan(id) => Find("products", [("metadata.artisan", Str(id))])
      case Workshops => Find("workshops", [])
      case CulturalStories => Find("cultural_stories", [])
      case MarketInsights => Find("market_insights", [])
      case FinancingOpportunities => Find("financing_opportunities", [])
    }

    /** The words naming the query in its failure message. */
    function Noun(): string {
      match this
      case Artisans => "artisans"
      case FeaturedArtisans => "featured artisans"
      case Products => "products"
      case FeaturedProducts => "featured products"
      case ProductsByArtisan(_) => "products by artisan"
      case Workshops => "workshops"
      case CulturalStories => "cultural stories"
      case MarketInsights => "market insights"
      case FinancingOpportunities => "financing opportunities"
    }

    /** The metadata date field the answer is sorted by, and the direction. */
    function SortKey(): Option<(string, Direction)> {
      match this
      case Workshops => Some(("scheduled_date", Ascending))
      case MarketInsights => Some(("generated_date", Descending))
      case FinancingOpportunities => Some(("application_deadline", Ascending))
      case _ => None
    }
  }

  /** The single-object reads by slug. */
  datatype SlugQuery = ArtisanBySlug(slug: string) | ProductBySlug(slug: string) {
    function Request(): Request {
      match this
      case ArtisanBySlug(s) => FindOne("artisans", s)
      case ProductBySlug(s) => FindOne("products", s)
    }

    function Noun(): string {
      match this
      case ArtisanBySlug(_) => "artisan"
      case ProductBySlug(_) => "product"
    }
  }

  /** `hasStatus(error)`: the caught value is a non-null object with a `status`
      property, whatever that property holds. */
  predicate HasStatus(e: JsValue) {
    TypeOf(e) == "object" && e != Null && HasProperty(e, "status")
  }

  /** The caught value is the store's "not found": its `status` is `=== 404`. */
  predicate IsNotFound(e: JsValue) {
    HasStatus(e) && e.Obj? && e.props["status"] == Num(404.0)
  }

  function FetchFailure(noun: string): string {
    "Failed to fetch " + noun
  }

  /** The catch block shared by every read: a not-found error becomes the empty
      answer, any other error is rethrown as a fetch failure naming the query. */
  function Recover<T>(e: JsValue, empty: T, noun: string): Outcome<T> {
    if IsNotFound(e) then Returned(empty) else Threw(FetchFailure(noun))
  }

  /** The timestamp a sorted query compares for an object: `dateOf(o, field)`
      stands for `new Date(o.metadata?.[field] || '').getTime()`, `None` for NaN. */
  function SortDates<T>(dateOf: (T, string) -> Option<int>, field: string): T -> Option<int> {
    (o: T) => dateOf(o, field)
  }

  /** What a collection read returns or throws, given the store's answer. */
  function CollectionOutcome<T>(q: CollectionQuery, r: StoreResult<seq<T>>, dateOf: (T, string) -> Option<int>): Outcome<seq<T>> {
    match r
    case Answered(objects) =>
      (match q.SortKey()
       case None => Returned(objects)
       case Some((field, dir)) => Returned(Sorted(objects, SortDates(dateOf, field), dir)))
    case Failed(e) => Recover(e, [], q.Noun())
  }

  /** A collection read. The three sorted queries sort the answer's array in place
      before returning it. */
  method FetchCollection<T>(q: CollectionQuery, r: StoreResult<seq<T>>, dateOf: (T, string) -> Option<int>)
    returns (out: Outcome<seq<T>>)
    ensures out == CollectionOutcome(q, r, dateOf)
  {
    match r
    case Failed(e) =>
      out := Recover(e, [], q.Noun());
    case Answered(objects) =>
      match q.SortKey()
      case None =>
        out := Returned(objects);
      case Some((field, dir)) =>
        var a := new T[|objects|](k requires 0 <= k < |objects| => objects[k]);
        assert a[..] == objects;
        SortInPlace(a, SortDates(dateOf, field), dir);
        out := Returned(a[..]);
  }

  /** What a read by slug returns or throws: the object, `null` (`None`) on a
      not-found error, otherwise a fetch failure. */
  function SlugOutcome<T>(q: SlugQuery, r: StoreResult<T>): Outcome<Option<T>> {
    match r
    case Answered(o) => Returned(Some(o))
    case Failed(e) => Recover(e, None, q.Noun())
  }

  /** The insert `createProduct(productData)` sends; `None` when reading
      `productData.title` throws (the argument is null or undefined). */
  function CreateRequest(productData: JsValue): Option<Request> {
    if IsNullish(productData) then None
    else Some(InsertOne("products",
                        GetProperty(productData, "title").value,
                        GetProperty(productData, "slug").value,
                        GetProperty(productData, "metadata").value))
  }

  /** `createProduct`: any failure, including a 404 and a throw while building the
      request, is rethrown as "Failed to create product". */
  function CreateProduct<T>(productData: JsValue, r: StoreResult<T>): Outcome<T> {
    if CreateRequest(productData).None? then Threw("Failed to create product")
    else match r
      case Answered(o) => Returned(o)
      case Failed(_) => Threw("Failed to create product")
  }

  /** The update `updateProduct(id, updates)` sends. */
  function UpdateRequest(id: string, updates: JsValue): Request {
    UpdateOne(id, updates)
  }

  /** `updateProduct`: any failure is rethrown as "Failed to update product". */
  function UpdateProduct<T>(r: StoreResult<T>): Outcome<T> {
    match r
    case Answered(o) => Returned(o)
    case Failed(_) => Threw("Failed to update product")
  }

  /** `hasStatus` holds exactly of objects with an own `status` property: `null`,
      primitives, functions and arrays never pass, and the property's value is not
      inspected. */
  lemma HasStatusExactly(e: JsValue)
    ensures HasStatus(e) <==> e.Obj? && "status" in e.props
  {
    if e.Arr? {
      forall k: nat ensures JsString.NatToString(k) != "status" {
        assert JsString.IsDigit(JsString.NatToString(k)[0]);
      }
    }
  }

  /** A `status` that is 404 in any form other than the number fails the `=== 404`
      test, so such an error is rethrown. */
  lemma StatusMustBeTheNumber404()
    ensures HasStatus(Obj(map["status" := Str("404")]))
    ensures !IsNotFound(Obj(map["status" := Str("404")]))
    ensures IsNotFound(Obj(map["status" := Num(404.0), "message" := Str("Not Found")]))
  {
  }

  /** A not-found error makes every collection read return the empty sequence and
      every read by slug return `null`. */
  lemma NotFoundReadsAreEmpty<T>(q: CollectionQuery, p: SlugQuery, e: JsValue, dateOf: (T, string) -> Option<int>)
    requires IsNotFound(e)
    ensures CollectionOutcome(q, Failed(e), dateOf) == Returned([])
    ensures SlugOutcome<T>(p, Failed(e)) == Returned(None)
  {
  }

  /** Every other error, with a status that is not 404 or without a status at all,
      is rethrown as "Failed to fetch <noun>"; no error is swallowed. */
  lemma OtherFailuresThrow<T>(q: CollectionQuery, p: SlugQuery, e: JsValue, dateOf: (T, string) -> Option<int>)
    requires !IsNotFound(e)
    ensures CollectionOutcome(q, Failed(e), dateOf) == Threw("Failed to fetch " + q.Noun())
    ensures SlugOutcome<T>(p, Failed(e)) == Threw("Failed to fetch " + p.Noun())
  {
  }

  /** A read either returns or throws the failure of its own query; the nouns of
      different reads differ, so the message identifies the read that failed. */
  lemma FailureMessagesIdentifyTheRead(q1: CollectionQuery, q2: CollectionQuery, p1: SlugQuery, p2: SlugQuery)
    ensures FetchFailure(q1.Noun()) == FetchFailure(q2.Noun()) ==> q1.Request().typeTag == q2.Request().typeTag
    ensures FetchFailure(q1.Noun()) == FetchFailure(q2.Noun()) ==> q1.SortKey() == q2.SortKey()
    ensures FetchFailure(p1.Noun()) == FetchFailure(p2.Noun()) <==> p1.ArtisanBySlug? == p2.ArtisanBySlug?
    ensures FetchFailure(q1.Noun()) != FetchFailure(p1.Noun())
  {
    FetchFailureIsInjective(q1.Noun(), q2.Noun());
    FetchFailureIsInjective(p1.Noun(), p2.Noun());
    FetchFailureIsInjective(q1.Noun(), p1.Noun());
    CollectionNounsIdentifyTheQuery(q1, q2);
  }

  lemma FetchFailureIsInjective(a: string, b: string)
    ensures FetchFailure(a) == FetchFailure(b) ==> a == b
  {
    assert a == FetchFailure(a)[16..] && b == FetchFailure(b)[16..];
  }

  lemma CollectionNounsIdentifyTheQuery(q1: CollectionQuery, q2: CollectionQuery)
    ensures q1.Noun() == q2.Noun() ==> q1.Request().typeTag == q2.Request().typeTag && q1.SortKey() == q2.SortKey()
  {
  }

  /** A read that does not sort returns the store's objects in the store's order. */
  lemma UnsortedReadsKeepStoreOrder<T>(q: CollectionQuery, objects: seq<T>, dateOf: (T, string) -> Option<int>)
    requires q !in {Workshops, MarketInsights, FinancingOpportunities}
    ensures CollectionOutcome(q, Answered(objects), dateOf) == Returned(objects)
  {
  }

  /** A sorted read returns a permutation of the store's objects; when every
      object's date parses, they are in date order (ascending for workshops and
      financing opportunities, descending for market insights) with objects of
      equal date in the store's order. */
  lemma SortedReadsOrderByDate<T>(q: CollectionQuery, objects: seq<T>, dateOf: (T, string) -> Option<int>)
    requires q in {Workshops, MarketInsights, FinancingOpportunities}
    ensures var out := CollectionOutcome(q, Answered(objects), dateOf);
            var (field, dir) := q.SortKey().value;
            var key := SortDates(dateOf, field);
            && out.Returned?
            && multiset(out.value) == multiset(objects)
            && (dir == Ascending <==> q != MarketInsights)
            && (AllDated(objects, key) ==>
                  AllDated(out.value, key) && Ordered(out.value, key, dir) && StableFrom(out.value, objects, key))
  {
    var (field, dir) := q.SortKey().value;
    var key := SortDates(dateOf, field);
    SortedPermutes(objects, key, dir);
    if AllDated(objects, key) {
      SortedIsOrdered(objects, key, dir);
      SortedIsStable(objects, key, dir);
    }
  }

  /** The writes have no not-found case: every failure, 404 included, is rethrown
      with the write's own message. */
  lemma WritesRethrowEveryFailure<T>(productData: JsValue, e: JsValue)
    ensures CreateProduct<T>(productData, Failed(e)) == Threw("Failed to create product")
    ensures UpdateProduct<T>(Failed(e)) == Threw("Failed to update product")
    ensures IsNullish(productData) ==> forall r: StoreResult<T> :: CreateProduct(productData, r) == Threw("Failed to create product")
  {
  }
}
