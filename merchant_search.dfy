/** What the two merchant-search handlers share: the `name_filter` bound into
    the SQL query, and the pipeline that turns the query's outcome into a
    response (rows mapped to items, the items decoded as the response body,
    every failure an internal error). */
module MerchantSearch {
  import opened Wrappers
  import opened JsString
  import opened Js
  import opened IoTs
  import opened Responses

  /** `%${merchantName ?? "" lower-cased}%`: a SQL `LIKE` pattern matching
      every name that contains the lower-cased merchant name. */
  function NameFilter(merchantName: Option<string>): (r: string)
    ensures |r| >= 2 && r[0] == '%' && r[|r| - 1] == '%'
    ensures merchantName.None? ==> r == "%%"
    ensures merchantName.Some? ==> |r| == |merchantName.value| + 2 && r[1..|r| - 1] == ToLower(merchantName.value)
  {
    var name := match merchantName case None => "" case Some(n) => n;
    var r := "%" + ToLower(name) + "%";
    assert r[1..|r| - 1] == ToLower(name);
    r
  }

  /** The filter ignores the case of ASCII letters, holds no upper-case ASCII
      letter, and treats an absent name as the empty one. */
  lemma NameFilterIgnoresCase(name: string)
    ensures NameFilter(Some(ToLower(name))) == NameFilter(Some(name))
    ensures NameFilter(Some("")) == NameFilter(None)
    ensures forall k :: 0 <= k < |NameFilter(Some(name))| ==> !IsAsciiUpper(NameFilter(Some(name))[k])
  {
    ToLowerIdempotent(name);
    var r := NameFilter(Some(name));
    forall k | 0 <= k < |r| ensures !IsAsciiUpper(r[k]) {
      if 0 < k < |r| - 1 {
        assert r[k] == r[1..|r| - 1][k - 1];
      }
    }
  }

  /** `rows.map(toItem)`. */
  function MapRows<Row, Item>(toItem: Row -> Item, rows: seq<Row>): (r: seq<Item>)
    ensures |r| == |rows|
    ensures forall k :: 0 <= k < |rows| ==> r[k] == toItem(rows[k])
  {
    seq(|rows|, k requires 0 <= k < |rows| => toItem(rows[k]))
  }

  /** The body of both handlers after the query ran: `tryCatch(query, toError)`,
      `.map(rows => rows.map(toItem))`, `.chain(items => decode({items})
      .mapLeft(errorsToError))`, `.fold(e => ResponseErrorInternal(e.message),
      ResponseSuccessJson)`. */
  function SearchResponse<Row, Item, Out>(rows: Either<Thrown, seq<Row>>, toItem: Row -> Item,
                                          decode: seq<Item> -> Validation<Out>, errorsToMessage: Errors -> string)
    : (r: Response<Out>)
    ensures rows.Left? ==> r == ResponseErrorInternal(ErrorMessage(rows.left))
    ensures rows.Right? && decode(MapRows(toItem, rows.right)).Left? ==>
      r == ResponseErrorInternal(errorsToMessage(decode(MapRows(toItem, rows.right)).left))
    ensures rows.Right? && decode(MapRows(toItem, rows.right)).Right? ==>
      r == ResponseSuccessJson(decode(MapRows(toItem, rows.right)).right)
  {
    rows.MapLeft(ErrorMessage)
      .Map((rs: seq<Row>) => MapRows(toItem, rs))
      .Chain((items: seq<Item>) => decode(items).MapLeft(errorsToMessage))
      .Fold((message: string) => ResponseErrorInternal(message), (out: Out) => ResponseSuccessJson(out))
  }

  /** The handlers never answer with a validation error: a success exactly
      when the query succeeds and its items decode, an internal error
      otherwise. */
  lemma SearchResponseKinds<Row, Item, Out>(rows: Either<Thrown, seq<Row>>, toItem: Row -> Item,
                                            decode: seq<Item> -> Validation<Out>, errorsToMessage: Errors -> string)
    ensures var r := SearchResponse(rows, toItem, decode, errorsToMessage);
      && !r.ResponseErrorValidation?
      && (r.ResponseSuccessJson? <==> rows.Right? && decode(MapRows(toItem, rows.right)).Right?)
      && (r.ResponseErrorInternal? <==> rows.Left? || decode(MapRows(toItem, rows.right)).Left?)
  {
  }

  /** A failed query is reported before any decoding: the response does not
      depend on the decoder, nor on how rows map to items. */
  lemma FailedQuerySkipsDecoding<Row, Item, Out>(e: Thrown, toItem1: Row -> Item, toItem2: Row -> Item,
                                                 decode1: seq<Item> -> Validation<Out>,
                                                 decode2: seq<Item> -> Validation<Out>,
                                                 errorsToMessage: Errors -> string)
    ensures SearchResponse(Left(e), toItem1, decode1, errorsToMessage)
      == SearchResponse(Left(e), toItem2, decode2, errorsToMessage)
  {
  }
}
