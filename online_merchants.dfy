/** The online-merchants search handler: it runs the online-merchants query
    for the search request, maps every row to a response item, decodes the
    items as the response body, and answers with the body or with an
    internal error. The database is a parameter: a function from the query
    it is sent to the rows it settles with, or what it rejected with. */
module OnlineMerchants {
  import opened Wrappers
  import opened Js
  import opened IoTs
  import opened Responses
  import opened ProductCategoryList
  import opened MerchantSearch

  /** The search request, as the body middleware decoded it; an absent field
      is `None`. */
  datatype OnlineMerchantSearchRequest = OnlineMerchantSearchRequest(
    merchantName: Option<string>,
    productCategories: Option<seq<ProductCategory>>,
    page: Option<nat>,
    pageSize: Option<nat>)

  /** What is sent to the database: the arguments of the query builder and
      the `name_filter` replacement. */
  datatype OnlineMerchantsQuery = OnlineMerchantsQuery(
    merchantName: Option<string>,
    productCategories: Option<seq<ProductCategory>>,
    page: Option<nat>,
    pageSize: Option<nat>,
    nameFilter: string)

  /** A row of the online-merchants query. */
  datatype OnlineMerchantRow = OnlineMerchantRow(
    id: string,
    name: string,
    product_categories: seq<string>,
    website_url: string)

  /** A response item: every column of its row, plus the categories in API
      form and the website under its API name. */
  datatype OnlineMerchantItem = OnlineMerchantItem(
    id: string,
    name: string,
    product_categories: seq<string>,
    website_url: string,
    productCategories: seq<ProductCategory>,
    websiteUrl: string)

  /** The query for a request. */
  function QueryFor(request: OnlineMerchantSearchRequest): (q: OnlineMerchantsQuery)
    ensures q.merchantName == request.merchantName && q.productCategories == request.productCategories
    ensures q.page == request.page && q.pageSize == request.pageSize
    ensures q.nameFilter == NameFilter(request.merchantName)
  {
    OnlineMerchantsQuery(request.merchantName, request.productCategories, request.page, request.pageSize,
                         NameFilter(request.merchantName))
  }

  /** The columns of the row an item carries. */
  function RowOf(item: OnlineMerchantItem): OnlineMerchantRow
  {
    OnlineMerchantRow(item.id, item.name, item.product_categories, item.website_url)
  }

  /** The item for a row, where `fromModel` is `ProductCategoryFromModel`. */
  function ToItem(fromModel: string -> ProductCategory, row: OnlineMerchantRow): (item: OnlineMerchantItem)
    ensures RowOf(item) == row
    ensures |item.productCategories| == |row.product_categories|
    ensures forall k :: 0 <= k < |row.product_categories| ==> item.productCategories[k] == fromModel(row.product_categories[k])
    ensures item.websiteUrl == row.website_url
  {
    OnlineMerchantItem(row.id, row.name, row.product_categories, row.website_url,
                       MapRows(fromModel, row.product_categories), row.website_url)
  }

  /** `GetOnlineMerchantsHandler(db)(context, request)`. */
  function GetOnlineMerchantsHandler<Out>(db: OnlineMerchantsQuery -> Either<Thrown, seq<OnlineMerchantRow>>,
                                          fromModel: string -> ProductCategory,
                                          decode: seq<OnlineMerchantItem> -> Validation<Out>,
                                          errorsToMessage: Errors -> string,
                                          request: OnlineMerchantSearchRequest): (r: Response<Out>)
    ensures !r.ResponseErrorValidation?
    ensures db(QueryFor(request)).Left? ==> r == ResponseErrorInternal(ErrorMessage(db(QueryFor(request)).left))
    ensures r.ResponseSuccessJson? ==> db(QueryFor(request)).Right?
  {
    var toItem := (row: OnlineMerchantRow) => ToItem(fromModel, row);
    SearchResponseKinds(db(QueryFor(request)), toItem, decode, errorsToMessage);
    SearchResponse(db(QueryFor(request)), toItem, decode, errorsToMessage)
  }

  /** The handler's outcomes: a failed query is an internal error with the
      error's message; otherwise the decoding of one item per row, in row
      order, is the response body or, when it fails, an internal error with
      the decoding errors' message. */
  lemma HandlerOutcomes<Out>(db: OnlineMerchantsQuery -> Either<Thrown, seq<OnlineMerchantRow>>,
                             fromModel: string -> ProductCategory,
                             decode: seq<OnlineMerchantItem> -> Validation<Out>,
                             errorsToMessage: Errors -> string,
                             request: OnlineMerchantSearchRequest)
    ensures var r := GetOnlineMerchantsHandler(db, fromModel, decode, errorsToMessage, request);
      var rows := db(QueryFor(request));
      && (rows.Left? ==> r == ResponseErrorInternal(ErrorMessage(rows.left)))
      && (rows.Right? ==> exists items: seq<OnlineMerchantItem> :: (
            && |items| == |rows.right|
            && (forall k :: 0 <= k < |items| ==> items[k] == ToItem(fromModel, rows.right[k]))
            && r == match decode(items)
                    case Left(errors) => ResponseErrorInternal(errorsToMessage(errors))
                    case Right(body) => ResponseSuccessJson(body)))
      && !r.ResponseErrorValidation?
  {
    var toItem := (row: OnlineMerchantRow) => ToItem(fromModel, row);
    var rows := db(QueryFor(request));
    SearchResponseKinds(rows, toItem, decode, errorsToMessage);
    if rows.Right? {
      var items := MapRows(toItem, rows.right);
      assert forall k :: 0 <= k < |items| ==> items[k] == ToItem(fromModel, rows.right[k]);
    }
  }

  /** The handler consults the database only with the query built from the
      request: databases that agree on that query give the same response. */
  lemma HandlerAsksOneQuery<Out>(db1: OnlineMerchantsQuery -> Either<Thrown, seq<OnlineMerchantRow>>,
                                 db2: OnlineMerchantsQuery -> Either<Thrown, seq<OnlineMerchantRow>>,
                                 fromModel: string -> ProductCategory,
                                 decode: seq<OnlineMerchantItem> -> Validation<Out>,
                                 errorsToMessage: Errors -> string,
                                 request: OnlineMerchantSearchRequest)
    requires db1(QueryFor(request)) == db2(QueryFor(request))
    ensures GetOnlineMerchantsHandler(db1, fromModel, decode, errorsToMessage, request)
         == GetOnlineMerchantsHandler(db2, fromModel, decode, errorsToMessage, request)
  {
  }
}
