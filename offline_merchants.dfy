/** The offline-merchants search handler: it runs the offline-merchants query
    for the search request, maps every row to a response item (address
    columns grouped into an address, distance rounded to an integer), decodes
    the items as the response body, and answers with the body or with an
    internal error. The database is a parameter, as for online merchants.
    Coordinates and distances are modelled as exact reals, `undefined` as
    `None`. */
module OfflineMerchants {
  import opened Wrappers
  import opened Js
  import opened IoTs
  import opened Responses
  import opened ProductCategoryList
  import opened MerchantSearch

  /** The search request, as the body middleware decoded it: the merchant
      name, and the remaining search criteria, which the handler only passes
      on to the query builder. */
  datatype OfflineMerchantSearchRequest = OfflineMerchantSearchRequest(
    merchantName: Option<string>,
    criteria: map<string, Value>)

  /** What is sent to the database: the whole request, for the query builder,
      and the `name_filter` replacement. */
  datatype OfflineMerchantsQuery = OfflineMerchantsQuery(
    request: OfflineMerchantSearchRequest,
    nameFilter: string)

  /** A row of the offline-merchants query. */
  datatype OfflineMerchantRow = OfflineMerchantRow(
    id: string,
    name: string,
    product_categories: seq<string>,
    address: string,
    latitude: Option<real>,
    longitude: Option<real>,
    distance: Option<real>)

  datatype Address = Address(full_address: string, latitude: Option<real>, longitude: Option<real>)

  /** A JavaScript number that `Math.round` produced: an integer, or `NaN`
      when the input was `undefined`. */
  datatype RoundedNumber = Integral(n: int) | NotANumber

  /** A response item: the row's columns, with `address` replaced by the
      grouped address, `distance` rounded, and the categories in API form. */
  datatype OfflineMerchantItem = OfflineMerchantItem(
    id: string,
    name: string,
    product_categories: seq<string>,
    address: Address,
    latitude: Option<real>,
    longitude: Option<real>,
    distance: RoundedNumber,
    productCategories: seq<ProductCategory>)

  /** The query for a request. */
  function QueryFor(request: OfflineMerchantSearchRequest): (q: OfflineMerchantsQuery)
    ensures q.request == request
    ensures q.nameFilter == NameFilter(request.merchantName)
  {
    OfflineMerchantsQuery(request, NameFilter(request.merchantName))
  }

  /** `Math.round` of a finite number: the nearest integer, halves rounded up
      (towards positive infinity). */
  function Round(x: real): (n: int)
    ensures n as real - 0.5 <= x < n as real + 0.5
  {
    (x + 0.5).Floor
  }

  /** `Math.round` is the only integer within the half-open interval around it,
      and leaves integers alone. */
  lemma RoundUnique(x: real, m: int)
    requires m as real - 0.5 <= x < m as real + 0.5
    ensures Round(x) == m
  {
  }

  lemma RoundIntegral(m: int)
    ensures Round(m as real) == m
  {
    RoundUnique(m as real, m);
  }

  /** `Math.round(v)` for a number or `undefined`. */
  function RoundDistance(v: Option<real>): (r: RoundedNumber)
    ensures v.None? <==> r.NotANumber?
    ensures v.Some? ==> r.n == Round(v.value)
  {
    match v
    case None => NotANumber
    case Some(x) => Integral(Round(x))
  }

  /** The item for a row, where `fromModel` is `ProductCategoryFromModel`. */
  function ToItem(fromModel: string -> ProductCategory, row: OfflineMerchantRow): (item: OfflineMerchantItem)
    ensures item.id == row.id && item.name == row.name && item.product_categories == row.product_categories
    ensures item.address == Address(row.address, row.latitude, row.longitude)
    ensures item.latitude == row.latitude && item.longitude == row.longitude
    ensures row.distance.Some? ==> item.distance.Integral?
    ensures row.distance.Some? ==> item.distance.n as real - 0.5 <= row.distance.value < item.distance.n as real + 0.5
    ensures row.distance.None? ==> item.distance.NotANumber?
    ensures |item.productCategories| == |row.product_categories|
    ensures forall k :: 0 <= k < |row.product_categories| ==> item.productCategories[k] == fromModel(row.product_categories[k])
  {
    OfflineMerchantItem(row.id, row.name, row.product_categories,
                        Address(row.address, row.latitude, row.longitude),
                        row.latitude, row.longitude,
                        RoundDistance(row.distance),
                        MapRows(fromModel, row.product_categories))
  }

  /** Every column of the row can be read back from its item, apart from the
      distance, which is only known up to rounding. */
  lemma ToItemKeepsRow(fromModel: string -> ProductCategory, row: OfflineMerchantRow)
    requires row.distance.None? || row.distance.value == Round(row.distance.value) as real
    ensures var item := ToItem(fromModel, row);
      OfflineMerchantRow(item.id, item.name, item.product_categories, item.address.full_address,
                         item.address.latitude, item.address.longitude,
                         match item.distance case NotANumber => None case Integral(n) => Some(n as real)) == row
  {
  }

  /** `GetOfflineMerchantsHandler(db)(context, request)`. */
  function GetOfflineMerchantsHandler<Out>(db: OfflineMerchantsQuery -> Either<Thrown, seq<OfflineMerchantRow>>,
                                           fromModel: string -> ProductCategory,
                                           decode: seq<OfflineMerchantItem> -> Validation<Out>,
                                           errorsToMessage: Errors -> string,
                                           request: OfflineMerchantSearchRequest): (r: Response<Out>)
    ensures !r.ResponseErrorValidation?
    ensures db(QueryFor(request)).Left? ==> r == ResponseErrorInternal(ErrorMessage(db(QueryFor(request)).left))
    ensures r.ResponseSuccessJson? ==> db(QueryFor(request)).Right?
  {
    var toItem := (row: OfflineMerchantRow) => ToItem(fromModel, row);
    SearchResponseKinds(db(QueryFor(request)), toItem, decode, errorsToMessage);
    SearchResponse(db(QueryFor(request)), toItem, decode, errorsToMessage)
  }

  /** The handler's outcomes: a failed query is an internal error with the
      error's message; otherwise the decoding of one item per row, in row
      order, is the response body or, when it fails, an internal error with
      the decoding errors' message. */
  lemma HandlerOutcomes<Out>(db: OfflineMerchantsQuery -> Either<Thrown, seq<OfflineMerchantRow>>,
                             fromModel: string -> ProductCategory,
                             decode: seq<OfflineMerchantItem> -> Validation<Out>,
                             errorsToMessage: Errors -> string,
                             request: OfflineMerchantSearchRequest)
    ensures var r := GetOfflineMerchantsHandler(db, fromModel, decode, errorsToMessage, request);
      var rows := db(QueryFor(request));
      && (rows.Left? ==> r == ResponseErrorInternal(ErrorMessage(rows.left)))
      && (rows.Right? ==> exists items: seq<OfflineMerchantItem> :: (
            && |items| == |rows.right|
            && (forall k :: 0 <= k < |items| ==> items[k] == ToItem(fromModel, rows.right[k]))
            && r == match decode(items)
                    case Left(errors) => ResponseErrorInternal(errorsToMessage(errors))
                    case Right(body) => ResponseSuccessJson(body)))
      && !r.ResponseErrorValidation?
  {
    var toItem := (row: OfflineMerchantRow) => ToItem(fromModel, row);
    var rows := db(QueryFor(request));
    SearchResponseKinds(rows, toItem, decode, errorsToMessage);
    if rows.Right? {
      var items := MapRows(toItem, rows.right);
      assert forall k :: 0 <= k < |items| ==> items[k] == ToItem(fromModel, rows.right[k]);
    }
  }

  /** The handler consults the database only with the query built from the
      request: databases that agree on that query give the same response. */
  lemma HandlerAsksOneQuery<Out>(db1: OfflineMerchantsQuery -> Either<Thrown, seq<OfflineMerchantRow>>,
                                 db2: OfflineMerchantsQuery -> Either<Thrown, seq<OfflineMerchantRow>>,
                                 fromModel: string -> ProductCategory,
                                 decode: seq<OfflineMerchantItem> -> Validation<Out>,
                                 errorsToMessage: Errors -> string,
                                 request: OfflineMerchantSearchRequest)
    requires db1(QueryFor(request)) == db2(QueryFor(request))
    ensures GetOfflineMerchantsHandler(db1, fromModel, decode, errorsToMessage, request)
         == GetOfflineMerchantsHandler(db2, fromModel, decode, errorsToMessage, request)
  {
  }
}
