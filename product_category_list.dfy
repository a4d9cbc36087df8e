/** Request-parameter decoding for the online-merchant search: a codec built
    from an enumeration, the comma-separated-list combinator over any codec, and
    the middleware that reads one optional query parameter with it. */
module ProductCategoryList {
  import opened Wrappers
  import opened JsString
  import opened Js
  import opened IoTs
  import opened Responses

  // ---------------------------------------------------------------------------
  // Enumeration codec
  // ---------------------------------------------------------------------------

  /** `Object.values(theEnum)` for an enumeration given by its members and the
      JavaScript value of each member. */
  function EnumValues<E>(members: seq<E>, valueOf: E -> Value): (r: seq<Value>)
    ensures |r| == |members|
    ensures forall k :: 0 <= k < |members| ==> r[k] == valueOf(members[k])
  {
    seq(|members|, k requires 0 <= k < |members| => valueOf(members[k]))
  }

  /** The member whose value is `v`, if there is one. */
  function FindMember<E>(members: seq<E>, valueOf: E -> Value, v: Value): (r: Option<E>)
    ensures r.Some? ==> r.value in members && valueOf(r.value) == v
    ensures r.None? <==> v !in EnumValues(members, valueOf)
  {
    if |members| == 0 then None
    else if valueOf(members[0]) == v then Some(members[0])
    else
      var r := FindMember(members[1..], valueOf, v);
      assert EnumValues(members, valueOf) == [valueOf(members[0])] + EnumValues(members[1..], valueOf);
      r
  }

  /** Validation of `fromEnum`: a value of the enumeration decodes to itself
      (here: to the member it is the value of); anything else fails with one
      error at the current path. */
  function EnumValidate<E>(members: seq<E>, valueOf: E -> Value, v: Value, c: Context): (r: Validation<E>)
    ensures r.Right? <==> v in EnumValues(members, valueOf)
    ensures r.Right? ==> r.right in members && valueOf(r.right) == v
    ensures r.Left? ==> r == Failure(v, c)
  {
    match FindMember(members, valueOf, v)
    case Some(e) => Right(e)
    case None => Failure(v, c)
  }

  /** `fromEnum(enumName, theEnum)`: `is` accepts exactly the enumeration's
      values, and encoding is the identity. */
  function FromEnum<E>(enumName: string, members: seq<E>, valueOf: E -> Value): (r: Codec<E>)
    ensures r.name == enumName
    ensures forall v :: r.guard(v) == (v in EnumValues(members, valueOf))
    ensures forall v, c :: r.validate(v, c) == EnumValidate(members, valueOf, v, c)
    ensures r.encode == valueOf
  {
    Codec(
      enumName,
      (v: Value) => v in EnumValues(members, valueOf),
      (v: Value, c: Context) => EnumValidate(members, valueOf, v, c),
      valueOf)
  }

  /** `is(v)` holds exactly for the enumeration's values; validation succeeds
      exactly then, returning the input unchanged, and otherwise fails with the
      single error `failure(input, context)`. */
  lemma FromEnumValidates<E>(enumName: string, members: seq<E>, valueOf: E -> Value, v: Value, c: Context)
    ensures FromEnum(enumName, members, valueOf).guard(v) <==> exists k :: 0 <= k < |members| && valueOf(members[k]) == v
    ensures FromEnum(enumName, members, valueOf).validate(v, c).Right? <==> FromEnum(enumName, members, valueOf).guard(v)
    ensures FromEnum(enumName, members, valueOf).validate(v, c).Right? ==>
      valueOf(FromEnum(enumName, members, valueOf).validate(v, c).right) == v
    ensures FromEnum(enumName, members, valueOf).validate(v, c).Left? ==>
      FromEnum(enumName, members, valueOf).validate(v, c) == Failure(v, c)
  {
    var values := EnumValues(members, valueOf);
    if v in values {
      var k :| 0 <= k < |values| && values[k] == v;
      assert valueOf(members[k]) == v;
    }
  }

  /** `is` and `validate` of an enumeration codec agree. */
  lemma FromEnumGuardAgrees<E>(enumName: string, members: seq<E>, valueOf: E -> Value)
    ensures GuardAgrees(FromEnum(enumName, members, valueOf))
  {
    var codec := FromEnum(enumName, members, valueOf);
    forall v, c | codec.guard(v)
      ensures codec.validate(v, c).Right? && codec.encode(codec.validate(v, c).right) == v
    {
      FromEnumValidates(enumName, members, valueOf, v, c);
    }
  }

  /** Distinct members have distinct values. */
  ghost predicate DistinctValues<E>(members: seq<E>, valueOf: E -> Value)
  {
    forall i, j :: 0 <= i < |members| && 0 <= j < |members| && valueOf(members[i]) == valueOf(members[j]) ==>
      members[i] == members[j]
  }

  /** Round trip: decoding the encoding of a member gives the member back. */
  lemma FromEnumRoundTrip<E>(enumName: string, members: seq<E>, valueOf: E -> Value, e: E, c: Context)
    requires DistinctValues(members, valueOf)
    requires e in members
    ensures FromEnum(enumName, members, valueOf).validate(valueOf(e), c) == Right(e)
  {
    var r := FindMember(members, valueOf, valueOf(e));
    var i :| 0 <= i < |members| && members[i] == e;
    assert EnumValues(members, valueOf)[i] == valueOf(e);
    var j :| 0 <= j < |members| && members[j] == r.value;
  }

  // ---------------------------------------------------------------------------
  // The product categories
  // ---------------------------------------------------------------------------

  datatype ProductCategory =
    | Entertainment | Travelling | Transportation | Connectivity | Books
    | Arts | Sports | Health | Shopping
  {
    /** The string this category is sent as. */
    function EnumValue(): string
    {
      match this
      case Entertainment => "entertainment"
      case Travelling => "travelling"
      case Transportation => "transportation"
      case Connectivity => "connectivity"
      case Books => "books"
      case Arts => "arts"
      case Sports => "sports"
      case Health => "health"
      case Shopping => "shopping"
    }
  }

  /** The exhaustive decoding of a category string. */
  function ParseProductCategory(s: string): (r: Option<ProductCategory>)
    ensures r.Some? ==> r.value.EnumValue() == s
    ensures r.None? ==> forall p: ProductCategory :: p.EnumValue() != s
  {
    match s
    case "entertainment" => Some(Entertainment)
    case "travelling" => Some(Travelling)
    case "transportation" => Some(Transportation)
    case "connectivity" => Some(Connectivity)
    case "books" => Some(Books)
    case "arts" => Some(Arts)
    case "sports" => Some(Sports)
    case "health" => Some(Health)
    case "shopping" => Some(Shopping)
    case _ => None
  }

  /** The members of the enumeration, in declaration order. */
  function AllProductCategories(): seq<ProductCategory>
  {
    [Entertainment, Travelling, Transportation, Connectivity, Books, Arts, Sports, Health, Shopping]
  }

  /** The list of members is complete. */
  lemma AllProductCategoriesComplete(p: ProductCategory)
    ensures p in AllProductCategories()
  {
    match p
    case Entertainment => assert AllProductCategories()[0] == p;
    case Travelling => assert AllProductCategories()[1] == p;
    case Transportation => assert AllProductCategories()[2] == p;
    case Connectivity => assert AllProductCategories()[3] == p;
    case Books => assert AllProductCategories()[4] == p;
    case Arts => assert AllProductCategories()[5] == p;
    case Sports => assert AllProductCategories()[6] == p;
    case Health => assert AllProductCategories()[7] == p;
    case Shopping => assert AllProductCategories()[8] == p;
  }

  /** Parsing is the exact inverse of the enumeration's values. */
  lemma ParseProductCategoryInverse(p: ProductCategory, s: string)
    ensures ParseProductCategory(p.EnumValue()) == Some(p)
    ensures ParseProductCategory(s) == Some(p) <==> s == p.EnumValue()
  {
  }

  /** Every category string is a non-empty token: no comma, no white space. */
  predicate IsPlainToken(s: string)
  {
    s != [] && forall k :: 0 <= k < |s| ==> s[k] != ',' && !IsWhiteSpace(s[k])
  }

  /** A non-empty word of lower-case ASCII letters is a plain token. */
  lemma LowerWordIsPlain(s: string)
    requires s != [] && forall k :: 0 <= k < |s| ==> 'a' <= s[k] <= 'z'
    ensures IsPlainToken(s)
  {
  }

  lemma ProductCategoryValuesArePlain(p: ProductCategory)
    ensures IsPlainToken(p.EnumValue())
  {
    LowerWordIsPlain(p.EnumValue());
  }

  function CategoryValue(p: ProductCategory): Value
  {
    Str(p.EnumValue())
  }

  /** `productCategoryCodec`. */
  function ProductCategoryCodec(): (r: Codec<ProductCategory>)
    ensures r.name == "ProductCategory"
    ensures forall p :: r.encode(p) == Str(p.EnumValue())
  {
    FromEnum("ProductCategory", AllProductCategories(), CategoryValue)
  }

  /** The generic search over the enumeration's values decides exactly as the
      exhaustive match does. */
  lemma ProductCategoryCodecMatchesParse(v: Value, c: Context)
    ensures ProductCategoryCodec().validate(v, c) ==
      if v.Str? && ParseProductCategory(v.s).Some? then Right(ParseProductCategory(v.s).value)
      else Failure(v, c)
  {
    var members := AllProductCategories();
    FromEnumValidates("ProductCategory", members, CategoryValue, v, c);
    var r := ProductCategoryCodec().validate(v, c);
    if v.Str? && ParseProductCategory(v.s).Some? {
      var p := ParseProductCategory(v.s).value;
      ParseProductCategoryInverse(p, v.s);
      AllProductCategoriesComplete(p);
      var k :| 0 <= k < |members| && members[k] == p;
      assert CategoryValue(members[k]) == v;
      assert r.Right?;
      ParseProductCategoryInverse(r.right, v.s);
    } else if r.Right? {
      ParseProductCategoryInverse(r.right, r.right.EnumValue());
    }
  }

  // ---------------------------------------------------------------------------
  // Comma-separated lists
  // ---------------------------------------------------------------------------

  /** `.map(e => e.trim())`. */
  function TrimAll(pieces: seq<string>): (r: seq<string>)
    ensures |r| == |pieces|
    ensures forall k :: 0 <= k < |pieces| ==> r[k] == Trim(pieces[k])
  {
    seq(|pieces|, k requires 0 <= k < |pieces| => Trim(pieces[k]))
  }

  /** `.filter(Boolean)` on strings: the non-empty ones, in order. */
  function KeepNonEmpty(pieces: seq<string>): (r: seq<string>)
    ensures |r| <= |pieces|
    ensures forall k :: 0 <= k < |r| ==> r[k] != []
    ensures |pieces| == 0 ==> r == []
    ensures |pieces| == 1 ==> r == if pieces[0] == [] then [] else pieces
  {
    if |pieces| == 0 then []
    else
      var rest := KeepNonEmpty(pieces[1..]);
      if pieces[0] == [] then rest else [pieces[0]] + rest
  }

  /** Filtering a concatenation filters each part in turn: with the cases of
      no and one string, this pins `.filter(Boolean)` as the in-order
      subsequence of the non-empty strings. */
  lemma {:induction false} KeepNonEmptyAppend(a: seq<string>, b: seq<string>)
    ensures KeepNonEmpty(a + b) == KeepNonEmpty(a) + KeepNonEmpty(b)
  {
    if |a| > 0 {
      KeepNonEmptyAppend(a[1..], b);
      assert (a + b)[1..] == a[1..] + b;
    } else {
      assert a + b == b;
    }
  }

  /** `.filter(Boolean)` keeps exactly the non-empty strings, and keeps none
      exactly when every string was empty. */
  lemma {:induction false} KeepNonEmptyKeeps(pieces: seq<string>)
    ensures forall x :: x in KeepNonEmpty(pieces) <==> x in pieces && x != []
    ensures KeepNonEmpty(pieces) == [] <==> forall k :: 0 <= k < |pieces| ==> pieces[k] == []
  {
    if |pieces| > 0 {
      KeepNonEmptyKeeps(pieces[1..]);
      assert forall x :: x in pieces <==> x == pieces[0] || x in pieces[1..];
      assert forall k :: 1 <= k < |pieces| ==> pieces[k] == pieces[1..][k - 1];
    }
  }

  /** `input.split(",").map(e => e.trim()).filter(Boolean)`. */
  function Tokens(s: string): seq<string>
  {
    KeepNonEmpty(TrimAll(Split(s, ',')))
  }

  /** The tokens as JavaScript strings. */
  function StrValues(tokens: seq<string>): (r: seq<Value>)
    ensures |r| == |tokens|
    ensures forall k :: 0 <= k < |tokens| ==> r[k] == Str(tokens[k])
  {
    seq(|tokens|, k requires 0 <= k < |tokens| => Str(tokens[k]))
  }

  /** What the list combinator hands to the array decoder: the tokens of a
      string; the empty array for any other falsy input; any other input
      unchanged, to let the array decoder reject it. */
  function ListInput(input: Value): (r: Value)
    ensures input.Str? ==> r == Arr(StrValues(Tokens(input.s)))
    ensures input.Str? ==> r.Arr? && |r.items| == |Tokens(input.s)|
    ensures input.Str? ==> forall k :: 0 <= k < |r.items| ==>
      r.items[k].Str? && r.items[k].s != [] && ',' !in r.items[k].s
    ensures !IsTruthy(input) || (input.Str? && OnlySeparatorsAndWhiteSpace(input.s, ',')) ==> r == Arr([])
    ensures !input.Str? && IsTruthy(input) ==> r == input
  {
    match input
    case Str(s) =>
      TokensArePlain(s);
      TokensEmptyIff(s);
      Arr(StrValues(Tokens(s)))
    case _ => if IsTruthy(input) then input else Arr([])
  }

  /** The path at which the list's elements are reported: the root of
      `t.readonlyArray(decoder)`. */
  function ListRoot(elementName: string): Context
  {
    [ContextEntry("", "ReadonlyArray<" + elementName + ">")]
  }

  /** Validation of the list codec: `t.readonlyArray(decoder).decode` of the
      list input, which starts from a fresh root path. */
  function ValidateList<T>(codec: Codec<T>, input: Value): (r: Validation<seq<T>>)
    ensures input.Str? ==> r == ValidateTokens(codec, Tokens(input.s))
    ensures !IsTruthy(input) || (input.Str? && OnlySeparatorsAndWhiteSpace(input.s, ',')) ==> r == Right([])
    ensures !input.Str? && IsTruthy(input) && !input.Arr? ==> r == Failure(input, ListRoot(codec.name))
  {
    ValidateArray(codec, ListInput(input), ListRoot(codec.name))
  }

  /** Encoding of the list codec: `String` of the encoded array. */
  function EncodeList<T>(codec: Codec<T>, xs: seq<T>): (r: Value)
    ensures r.Str?
    ensures (forall k :: 0 <= k < |xs| ==> codec.encode(xs[k]).Str?) ==> r.s == Join(EncodedNames(codec, xs), ',')
  {
    var encoded := EncodeArray(codec, xs);
    if forall k :: 0 <= k < |xs| ==> codec.encode(xs[k]).Str? then
      assert seq(|encoded.items|, k requires 0 <= k < |encoded.items| =>
               if encoded.items[k].Undefined? || encoded.items[k].Null? then "" else ToString(encoded.items[k]))
          == EncodedNames(codec, xs);
      Str(ToString(encoded))
    else
      Str(ToString(encoded))
  }

  /** The strings the elements encode as, in order. */
  function EncodedNames<T>(codec: Codec<T>, xs: seq<T>): (names: seq<string>)
    requires forall k :: 0 <= k < |xs| ==> codec.encode(xs[k]).Str?
    ensures |names| == |xs|
    ensures forall k :: 0 <= k < |xs| ==> names[k] == codec.encode(xs[k]).s
  {
    seq(|xs|, k requires 0 <= k < |xs| => codec.encode(xs[k]).s)
  }

  /** `CommaSeparatedListOf(decoder)`: `is` is that of an array of decoder
      values (the same guard as `t.readonlyArray(decoder)`). */
  function CommaSeparatedListOf<T>(codec: Codec<T>): (r: Codec<seq<T>>)
    ensures r.name == "CommaSeparatedListOf<" + codec.name + ">"
    ensures forall v :: r.guard(v) == IsArrayOf(codec, v)
    ensures forall v, c :: r.validate(v, c) == ValidateList(codec, v)
  {
    Codec(
      "CommaSeparatedListOf<" + codec.name + ">",
      (v: Value) => IsArrayOf(codec, v),
      (v: Value, c: Context) => ValidateList(codec, v),
      (xs: seq<T>) => EncodeList(codec, xs))
  }

  /** The characters of a trimmed string all occur in the string. */
  lemma TrimIsInfix(s: string)
    ensures forall x :: x in Trim(s) ==> x in s
  {
    var t := TrimStart(s);
    var e := TrimEnd(t);
    assert forall x :: x in e ==> x in t by {
      assert e == t[..|e|];
    }
    assert forall x :: x in t ==> x in s by {
      assert t == s[|s| - |t|..];
    }
  }

  /** A trimmed comma-free piece is comma-free and trimming it again changes
      nothing. */
  lemma TrimmedPieceIsPlain(p: string)
    requires ',' !in p
    ensures ',' !in Trim(p) && Trim(Trim(p)) == Trim(p)
  {
    var t := TrimStart(p);
    var e := TrimEnd(t);
    TrimIsInfix(p);
    if e != [] {
      assert e[0] == t[0];
    }
    TrimUnchanged(e);
  }

  /** Every token is non-empty, comma-free and already trimmed. */
  lemma TokensArePlain(s: string)
    ensures forall k :: 0 <= k < |Tokens(s)| ==>
      Tokens(s)[k] != [] && ',' !in Tokens(s)[k] && Trim(Tokens(s)[k]) == Tokens(s)[k]
  {
    var pieces := Split(s, ',');
    SplitPiecesOmitSeparator(s, ',');
    var trimmed := TrimAll(pieces);
    var tokens := KeepNonEmpty(trimmed);
    KeepNonEmptyKeeps(trimmed);
    forall k | 0 <= k < |tokens|
      ensures ',' !in tokens[k] && Trim(tokens[k]) == tokens[k]
    {
      assert tokens[k] in trimmed;
      var j :| 0 <= j < |trimmed| && trimmed[j] == tokens[k];
      TrimmedPieceIsPlain(pieces[j]);
    }
  }

  /** Empty or separator-only input: a string has no tokens exactly when it
      is made only of commas and white space (the empty string included). */
  lemma TokensEmptyIff(s: string)
    ensures Tokens(s) == [] <==> OnlySeparatorsAndWhiteSpace(s, ',')
  {
    var pieces := Split(s, ',');
    var trimmed := TrimAll(pieces);
    KeepNonEmptyKeeps(trimmed);
    SplitAllWhiteSpaceIff(s, ',');
    forall k | 0 <= k < |pieces| ensures trimmed[k] == [] <==> AllWhiteSpace(pieces[k]) {
      TrimEmptyIff(pieces[k]);
    }
  }

  /** Token `k` validated at its place in the list. */
  function TokenValidation<T>(codec: Codec<T>, tokens: seq<string>, k: nat): Validation<T>
    requires k < |tokens|
  {
    codec.validate(Str(tokens[k]), ElementContext(ListRoot(codec.name), k, codec.name))
  }

  /** The tokens validated as the elements of `t.readonlyArray(decoder)`. */
  function ValidateTokens<T>(codec: Codec<T>, tokens: seq<string>): Validation<seq<T>>
  {
    ValidateFrom(codec, StrValues(tokens), ListRoot(codec.name), 0)
  }

  lemma TokenValidationIsElementValidation<T>(codec: Codec<T>, tokens: seq<string>)
    ensures forall k :: 0 <= k < |tokens| ==>
      ValidateAt(codec, StrValues(tokens), ListRoot(codec.name), k) == TokenValidation(codec, tokens, k)
  {
  }

  /** Decoding a string is validating its tokens, from a fresh root path
      whatever the caller's path. */
  lemma CommaSeparatedValidatesTokens<T>(codec: Codec<T>, s: string, c: Context)
    ensures CommaSeparatedListOf(codec).validate(Str(s), c) == ValidateTokens(codec, Tokens(s))
  {
    var tokens := Tokens(s);
    assert ListInput(Str(s)) == Arr(StrValues(tokens));
    assert ValidateList(codec, Str(s)) == ValidateFrom(codec, StrValues(tokens), ListRoot(codec.name), 0);
  }

  /** Tokens validate exactly when each of them does, and then give the
      decoded tokens in order. */
  lemma ValidateTokensDecodes<T>(codec: Codec<T>, tokens: seq<string>)
    ensures var r := ValidateTokens(codec, tokens);
      && (r.Right? <==> forall k :: 0 <= k < |tokens| ==> TokenValidation(codec, tokens, k).Right?)
      && (r.Right? ==> |r.right| == |tokens|)
      && (r.Right? ==> forall k :: 0 <= k < |tokens| ==> r.right[k] == TokenValidation(codec, tokens, k).right)
  {
    var root := ListRoot(codec.name);
    var r := ValidateFrom(codec, StrValues(tokens), root, 0);
    TokenValidationIsElementValidation(codec, tokens);
    if r.Right? {
      forall k | 0 <= k < |tokens| ensures r.right[k] == TokenValidation(codec, tokens, k).right {
        assert r.right[k - 0] == ValidateAt(codec, StrValues(tokens), root, k).right;
      }
    }
  }

  /** A failure of the tokens holds the errors of every failing token and no
      other error. */
  lemma ValidateTokensReportsEveryBadToken<T>(codec: Codec<T>, tokens: seq<string>)
    ensures var r := ValidateTokens(codec, tokens);
      && (r.Left? ==> forall e :: e in r.left ==>
            exists k :: 0 <= k < |tokens| && TokenValidation(codec, tokens, k).Left?
              && e in TokenValidation(codec, tokens, k).left)
      && (forall k :: 0 <= k < |tokens| && TokenValidation(codec, tokens, k).Left? ==>
            r.Left? && forall e :: e in TokenValidation(codec, tokens, k).left ==> e in r.left)
  {
    TokenValidationIsElementValidation(codec, tokens);
  }

  /** The error a token rejected with `t.failure` is reported with: the
      token, at its index below the list's root. */
  function TokenError(typeName: string, tokens: seq<string>, k: nat): ValidationError
    requires k < |tokens|
  {
    ValidationError(Str(tokens[k]), ElementContext(ListRoot(typeName), k, typeName))
  }

  /** Each token decodes to what `parse` reads it as, and a token `parse`
      rejects fails with the single error `TokenError`. */
  ghost predicate TokensDecodeAs<T>(codec: Codec<T>, parse: string -> Option<T>, tokens: seq<string>)
  {
    forall k :: 0 <= k < |tokens| ==>
      TokenValidation(codec, tokens, k) ==
        if parse(tokens[k]).Some? then Right(parse(tokens[k]).value) else Left([TokenError(codec.name, tokens, k)])
  }

  /** The indices, from `i` on, of the tokens `parse` rejects, in ascending
      order. */
  function BadIndicesFrom<T>(parse: string -> Option<T>, tokens: seq<string>, i: nat): (b: seq<nat>)
    requires i <= |tokens|
    decreases |tokens| - i
    ensures forall j :: 0 <= j < |b| ==> i <= b[j] < |tokens| && parse(tokens[b[j]]).None?
    ensures forall j, l :: 0 <= j < l < |b| ==> b[j] < b[l]
    ensures forall k :: i <= k < |tokens| && parse(tokens[k]).None? ==> k in b
  {
    if i == |tokens| then []
    else if parse(tokens[i]).None? then [i] + BadIndicesFrom(parse, tokens, i + 1)
    else BadIndicesFrom(parse, tokens, i + 1)
  }

  /** The indices of all rejected tokens, in ascending order. */
  function BadIndices<T>(parse: string -> Option<T>, tokens: seq<string>): seq<nat>
  {
    BadIndicesFrom(parse, tokens, 0)
  }

  /** One `TokenError` per listed index, in the order listed. */
  function TokenErrors(typeName: string, tokens: seq<string>, b: seq<nat>): Errors
    requires forall j :: 0 <= j < |b| ==> b[j] < |tokens|
  {
    seq(|b|, j requires 0 <= j < |b| => TokenError(typeName, tokens, b[j]))
  }

  lemma TokenErrorsCons(typeName: string, tokens: seq<string>, i: nat, rest: seq<nat>)
    requires i < |tokens| && forall j :: 0 <= j < |rest| ==> rest[j] < |tokens|
    ensures TokenErrors(typeName, tokens, [i] + rest)
      == [TokenError(typeName, tokens, i)] + TokenErrors(typeName, tokens, rest)
  {
    var all := TokenErrors(typeName, tokens, [i] + rest);
    var tail := TokenErrors(typeName, tokens, rest);
    forall j | 1 <= j < |all| ensures all[j] == tail[j - 1] {
      assert ([i] + rest)[j] == rest[j - 1];
    }
  }

  /** The errors of the tokens from `i` on are one `TokenError` per rejected
      token, in token order. */
  lemma {:induction false} ErrorsFromAreTokenErrors<T>(codec: Codec<T>, parse: string -> Option<T>,
                                                      tokens: seq<string>, i: nat)
    requires TokensDecodeAs(codec, parse, tokens)
    requires i <= |tokens|
    decreases |tokens| - i
    ensures ErrorsFrom(codec, StrValues(tokens), ListRoot(codec.name), i)
      == TokenErrors(codec.name, tokens, BadIndicesFrom(parse, tokens, i))
  {
    if i < |tokens| {
      var items, root := StrValues(tokens), ListRoot(codec.name);
      ErrorsFromAreTokenErrors(codec, parse, tokens, i + 1);
      var rest := BadIndicesFrom(parse, tokens, i + 1);
      var head := ValidateAt(codec, items, root, i);
      assert head == TokenValidation(codec, tokens, i);
      assert ErrorsFrom(codec, items, root, i)
        == (if head.Left? then head.left else []) + ErrorsFrom(codec, items, root, i + 1);
      if parse(tokens[i]).None? {
        assert head.left == [TokenError(codec.name, tokens, i)];
        assert BadIndicesFrom(parse, tokens, i) == [i] + rest;
        TokenErrorsCons(codec.name, tokens, i, rest);
      } else {
        assert head.Right?;
        assert BadIndicesFrom(parse, tokens, i) == rest;
      }
    }
  }

  /** Tokens that decode as `parse` reads them validate exactly when `parse`
      reads every one, and then give what it reads, in order. */
  lemma ParsedTokensDecode<T>(codec: Codec<T>, parse: string -> Option<T>, tokens: seq<string>)
    requires TokensDecodeAs(codec, parse, tokens)
    ensures var r := ValidateTokens(codec, tokens);
      && (r.Right? <==> forall k :: 0 <= k < |tokens| ==> parse(tokens[k]).Some?)
      && (r.Right? ==> |r.right| == |tokens|)
      && (r.Right? ==> forall k :: 0 <= k < |tokens| ==> Some(r.right[k]) == parse(tokens[k]))
  {
    ValidateTokensDecodes(codec, tokens);
  }

  /** A failure of such tokens holds one error per token `parse` rejects, in
      token order, and no other error. */
  lemma ParsedTokensReportBadTokens<T>(codec: Codec<T>, parse: string -> Option<T>, tokens: seq<string>)
    requires TokensDecodeAs(codec, parse, tokens)
    ensures var r := ValidateTokens(codec, tokens);
      r.Left? ==> r.left == TokenErrors(codec.name, tokens, BadIndices(parse, tokens))
    ensures var r := ValidateTokens(codec, tokens);
      r.Left? ==> forall e :: e in r.left <==>
        exists k :: 0 <= k < |tokens| && parse(tokens[k]).None? && e == TokenError(codec.name, tokens, k)
  {
    ValidateFromErrorsInOrder(codec, StrValues(tokens), ListRoot(codec.name), 0);
    ErrorsFromAreTokenErrors(codec, parse, tokens, 0);
    BadTokenErrorsAreRejected(codec.name, parse, tokens);
  }

  /** The errors listed for the rejected indices are, as a set, exactly the
      errors of the rejected tokens. */
  lemma BadTokenErrorsAreRejected<T>(typeName: string, parse: string -> Option<T>, tokens: seq<string>)
    ensures forall e :: e in TokenErrors(typeName, tokens, BadIndices(parse, tokens)) <==>
      exists k :: 0 <= k < |tokens| && parse(tokens[k]).None? && e == TokenError(typeName, tokens, k)
  {
    var b := BadIndices(parse, tokens);
    var errs := TokenErrors(typeName, tokens, b);
    forall e | e in errs
      ensures exists k :: 0 <= k < |tokens| && parse(tokens[k]).None? && e == TokenError(typeName, tokens, k)
    {
      var j :| 0 <= j < |errs| && errs[j] == e;
      assert e == TokenError(typeName, tokens, b[j]);
    }
    forall k | 0 <= k < |tokens| && parse(tokens[k]).None?
      ensures TokenError(typeName, tokens, k) in errs
    {
      var j :| 0 <= j < |b| && b[j] == k;
      assert errs[j] == TokenError(typeName, tokens, k);
    }
  }

  /** Decoding a string succeeds exactly when every token decodes, and then
      yields the decoded tokens in input order. */
  lemma CommaSeparatedDecodesTokens<T>(codec: Codec<T>, s: string, c: Context)
    ensures var r := CommaSeparatedListOf(codec).validate(Str(s), c);
      && (r.Right? <==> forall k :: 0 <= k < |Tokens(s)| ==> TokenValidation(codec, Tokens(s), k).Right?)
      && (r.Right? ==> |r.right| == |Tokens(s)|)
      && (r.Right? ==> forall k :: 0 <= k < |Tokens(s)| ==> r.right[k] == TokenValidation(codec, Tokens(s), k).right)
  {
    CommaSeparatedValidatesTokens(codec, s, c);
    ValidateTokensDecodes(codec, Tokens(s));
  }

  /** Decoding a string fails exactly when some token does not decode; the
      failure carries the errors of every such token and no other error. */
  lemma CommaSeparatedReportsEveryBadToken<T>(codec: Codec<T>, s: string, c: Context)
    ensures var r := CommaSeparatedListOf(codec).validate(Str(s), c);
      && (r.Left? ==> forall e :: e in r.left ==>
            exists k :: 0 <= k < |Tokens(s)| && TokenValidation(codec, Tokens(s), k).Left?
              && e in TokenValidation(codec, Tokens(s), k).left)
      && (forall k :: 0 <= k < |Tokens(s)| && TokenValidation(codec, Tokens(s), k).Left? ==>
            r.Left? && forall e :: e in TokenValidation(codec, Tokens(s), k).left ==> e in r.left)
  {
    CommaSeparatedValidatesTokens(codec, s, c);
    ValidateTokensReportsEveryBadToken(codec, Tokens(s));
  }

  /** The empty string, a string of commas and white space, and every other
      falsy input (`null`, `undefined`, `false`, `0`) decode to the empty list,
      never to a failure. */
  lemma CommaSeparatedEmptyInput<T>(codec: Codec<T>, v: Value, c: Context)
    requires !IsTruthy(v) || (v.Str? && OnlySeparatorsAndWhiteSpace(v.s, ','))
    ensures CommaSeparatedListOf(codec).validate(v, c) == Right([])
  {
    if v.Str? {
      TokensEmptyIff(v.s);
    }
    assert ListInput(v) == Arr([]);
  }

  /** Any other input that is not a string reaches the array decoder as it is:
      an array is decoded element by element, anything else fails with one
      error at the list's root path. */
  lemma CommaSeparatedNonString<T>(codec: Codec<T>, v: Value, c: Context)
    requires !v.Str? && IsTruthy(v)
    ensures CommaSeparatedListOf(codec).validate(v, c) == Decode(ReadonlyArrayOf(codec), v)
    ensures !v.Arr? ==> CommaSeparatedListOf(codec).validate(v, c) == Failure(v, ListRoot(codec.name))
  {
    assert ListInput(v) == v;
  }

  /** `is` of the list codec agrees with its validation on arrays: an array of
      decoder values decodes to values that encode back to its elements. */
  lemma CommaSeparatedGuardAgrees<T>(codec: Codec<T>, v: Value, c: Context)
    requires GuardAgrees(codec)
    requires CommaSeparatedListOf(codec).guard(v)
    ensures CommaSeparatedListOf(codec).validate(v, c).Right?
    ensures EncodeArray(codec, CommaSeparatedListOf(codec).validate(v, c).right) == v
  {
    ReadonlyArrayGuardAgrees(codec);
    assert ListInput(v) == v;
    var arr := ReadonlyArrayOf(codec);
    assert arr.guard(v);
    assert arr.validate(v, ListRoot(codec.name)) == ValidateList(codec, v);
  }

  /** Filtering keeps a list whose strings are all non-empty. */
  lemma {:induction false} KeepAllNonEmpty(pieces: seq<string>)
    requires forall k :: 0 <= k < |pieces| ==> pieces[k] != []
    ensures KeepNonEmpty(pieces) == pieces
  {
    if |pieces| > 0 {
      KeepAllNonEmpty(pieces[1..]);
    }
  }

  /** The strings of plain tokens are their own tokens once comma-joined. */
  lemma TokensOfJoin(names: seq<string>)
    requires forall k :: 0 <= k < |names| ==> IsPlainToken(names[k])
    ensures Tokens(Join(names, ',')) == names
  {
    if |names| == 0 {
      assert Split(Join(names, ','), ',') == [""];
    } else {
      SplitJoin(names, ',');
      var trimmed := TrimAll(names);
      assert trimmed == names by {
        forall k | 0 <= k < |names| ensures trimmed[k] == names[k] {
          TrimUnchanged(names[k]);
        }
      }
      KeepAllNonEmpty(names);
    }
  }

  /** A list whose elements encode as plain tokens encodes as their comma
      join, which tokenises back to those tokens. */
  lemma EncodeListTokens<T>(codec: Codec<T>, xs: seq<T>)
    requires forall x :: codec.encode(x).Str? && IsPlainToken(codec.encode(x).s)
    ensures CommaSeparatedListOf(codec).encode(xs) == Str(Join(EncodedNames(codec, xs), ','))
    ensures Tokens(Join(EncodedNames(codec, xs), ',')) == EncodedNames(codec, xs)
  {
    assert CommaSeparatedListOf(codec).encode(xs) == EncodeList(codec, xs);
    TokensOfJoin(EncodedNames(codec, xs));
  }

  /** The encodings of a list's elements validate, as tokens, to the list. */
  lemma ValidateEncodedNames<T>(codec: Codec<T>, xs: seq<T>)
    requires forall x :: codec.encode(x).Str?
    requires forall x, c' :: codec.validate(codec.encode(x), c') == Right(x)
    ensures ValidateTokens(codec, EncodedNames(codec, xs)) == Right(xs)
  {
    var names := EncodedNames(codec, xs);
    ValidateTokensDecodes(codec, names);
    forall k | 0 <= k < |xs| ensures TokenValidation(codec, names, k) == Right(xs[k]) {
      assert Str(names[k]) == codec.encode(xs[k]);
    }
    assert ValidateTokens(codec, names).right == xs;
  }

  /** Round trip: when every element encodes as a plain token that decodes
      back to the element, decoding the comma join of a list gives the list. */
  lemma CommaSeparatedRoundTrip<T>(codec: Codec<T>, xs: seq<T>, c: Context)
    requires forall x :: codec.encode(x).Str? && IsPlainToken(codec.encode(x).s)
    requires forall x, c' :: codec.validate(codec.encode(x), c') == Right(x)
    ensures CommaSeparatedListOf(codec).validate(CommaSeparatedListOf(codec).encode(xs), c) == Right(xs)
  {
    var s := Join(EncodedNames(codec, xs), ',');
    EncodeListTokens(codec, xs);
    CommaSeparatedValidatesTokens(codec, s, c);
    ValidateEncodedNames(codec, xs);
  }

  /** The list-of-categories codec used by the middleware. */
  function ProductCategoryListCodec(): Codec<seq<ProductCategory>>
  {
    CommaSeparatedListOf(ProductCategoryCodec())
  }

  /** Category lists survive a round trip through their comma-separated form. */
  lemma ProductCategoryListRoundTrip(xs: seq<ProductCategory>, c: Context)
    ensures ProductCategoryListCodec().validate(ProductCategoryListCodec().encode(xs), c) == Right(xs)
  {
    var codec := ProductCategoryCodec();
    forall x ensures codec.encode(x).Str? && IsPlainToken(codec.encode(x).s) {
      ProductCategoryValuesArePlain(x);
    }
    forall x, c' ensures codec.validate(codec.encode(x), c') == Right(x) {
      ProductCategoryCodecMatchesParse(codec.encode(x), c');
      ParseProductCategoryInverse(x, x.EnumValue());
    }
    CommaSeparatedRoundTrip(codec, xs, c);
  }

  lemma CategoryTokenValidation(tokens: seq<string>, k: nat)
    requires k < |tokens|
    ensures TokenValidation(ProductCategoryCodec(), tokens, k) ==
      if ParseProductCategory(tokens[k]).Some? then Right(ParseProductCategory(tokens[k]).value)
      else Left([TokenError("ProductCategory", tokens, k)])
  {
    ProductCategoryCodecMatchesParse(Str(tokens[k]), ElementContext(ListRoot("ProductCategory"), k, "ProductCategory"));
  }

  /** Category tokens decode as the exhaustive match reads them. */
  lemma CategoryTokensDecodeAsParse(tokens: seq<string>)
    ensures TokensDecodeAs(ProductCategoryCodec(), ParseProductCategory, tokens)
  {
    forall k | 0 <= k < |tokens|
      ensures TokenValidation(ProductCategoryCodec(), tokens, k) ==
        if ParseProductCategory(tokens[k]).Some? then Right(ParseProductCategory(tokens[k]).value)
        else Left([TokenError("ProductCategory", tokens, k)])
    {
      CategoryTokenValidation(tokens, k);
    }
  }

  /** Category tokens validate exactly when every one is a category, and then
      give the tokens' categories in order. */
  lemma CategoryTokensDecode(tokens: seq<string>)
    ensures var r := ValidateTokens(ProductCategoryCodec(), tokens);
      && (r.Right? <==> forall k :: 0 <= k < |tokens| ==> ParseProductCategory(tokens[k]).Some?)
      && (r.Right? ==> |r.right| == |tokens|)
      && (r.Right? ==> forall k :: 0 <= k < |tokens| ==> Some(r.right[k]) == ParseProductCategory(tokens[k]))
  {
    CategoryTokensDecodeAsParse(tokens);
    ParsedTokensDecode(ProductCategoryCodec(), ParseProductCategory, tokens);
  }

  /** A failure of category tokens holds one error per token that is not a
      category, with that token and its index, and no other error. */
  lemma CategoryTokensReportBadTokens(tokens: seq<string>)
    ensures var r := ValidateTokens(ProductCategoryCodec(), tokens);
      r.Left? ==> r.left == TokenErrors("ProductCategory", tokens, BadIndices(ParseProductCategory, tokens))
    ensures var r := ValidateTokens(ProductCategoryCodec(), tokens);
      r.Left? ==> forall e :: e in r.left <==>
        exists k :: 0 <= k < |tokens| && ParseProductCategory(tokens[k]).None? && e == TokenError("ProductCategory", tokens, k)
  {
    CategoryTokensDecodeAsParse(tokens);
    ParsedTokensReportBadTokens(ProductCategoryCodec(), ParseProductCategory, tokens);
  }

  /** A category list decodes exactly when every token is a category, and
      then yields the tokens' categories in order. */
  lemma ProductCategoryListDecodes(s: string, c: Context)
    ensures var r := ProductCategoryListCodec().validate(Str(s), c);
      && (r.Right? <==> forall k :: 0 <= k < |Tokens(s)| ==> ParseProductCategory(Tokens(s)[k]).Some?)
      && (r.Right? ==> |r.right| == |Tokens(s)|)
      && (r.Right? ==> forall k :: 0 <= k < |Tokens(s)| ==> Some(r.right[k]) == ParseProductCategory(Tokens(s)[k]))
  {
    CommaSeparatedValidatesTokens(ProductCategoryCodec(), s, c);
    CategoryTokensDecode(Tokens(s));
  }

  /** A category list that does not decode reports one error per token that is
      not a category, holding that token and its index, and no other error. */
  lemma ProductCategoryListReportsBadTokens(s: string, c: Context)
    ensures var r := ProductCategoryListCodec().validate(Str(s), c);
      r.Left? ==> r.left == TokenErrors("ProductCategory", Tokens(s), BadIndices(ParseProductCategory, Tokens(s)))
    ensures var r := ProductCategoryListCodec().validate(Str(s), c);
      r.Left? ==> forall e :: e in r.left <==>
        exists k :: 0 <= k < |Tokens(s)| && ParseProductCategory(Tokens(s)[k]).None? && e == TokenError("ProductCategory", Tokens(s), k)
  {
    CommaSeparatedValidatesTokens(ProductCategoryCodec(), s, c);
    CategoryTokensReportBadTokens(Tokens(s));
  }

  // ---------------------------------------------------------------------------
  // The optional query-parameter middleware
  // ---------------------------------------------------------------------------

  /** Reads query parameter `name`: absent (missing, `null` or `undefined`)
      gives `none` without decoding; otherwise the decoded value as `some`, or
      the validation errors reported under `typeName`. */
  function OptionalQueryParam<T>(query: map<string, Value>, name: string, codec: Codec<T>, typeName: string)
    : (r: Either<ErrorResponse, Option<T>>)
    ensures r == Right(None) <==> Property(query, name) == Undefined || Property(query, name) == Null
    ensures r.Right? && r.right.Some? ==> Decode(codec, Property(query, name)) == Right(r.right.value)
    ensures r.Left? ==> Decode(codec, Property(query, name)).Left?
    ensures r.Left? ==> r.left == ResponseErrorValidation(typeName, Decode(codec, Property(query, name)).left)
  {
    match FromNullable(Property(query, name))
    case None => Right(None)
    case Some(raw) =>
      Decode(codec, raw).Bimap((errors: Errors) => ErrorFromValidationErrors(typeName, errors), (x: T) => Some(x))
  }

  /** Every outcome of the middleware, for every codec: `none` exactly when the
      parameter is absent, `some(x)` exactly when it is present and decodes to
      `x`, and a validation error with the decode errors exactly when it is
      present and does not decode. */
  lemma OptionalQueryParamOutcomes<T>(query: map<string, Value>, name: string, codec: Codec<T>, typeName: string)
    ensures var r := OptionalQueryParam(query, name, codec, typeName);
      var raw := Property(query, name);
      && (r == Right(None) <==> raw == Undefined || raw == Null)
      && (forall x :: r == Right(Some(x)) <==> raw != Undefined && raw != Null && Decode(codec, raw) == Right(x))
      && (r.Left? <==> raw != Undefined && raw != Null && Decode(codec, raw).Left?)
      && (r.Left? ==> r.left == ResponseErrorValidation(typeName, Decode(codec, raw).left))
  {
  }

  /** `OptionalQueryParamMiddleware(name, codec)`: errors are reported under
      the codec's own name. */
  function OptionalQueryParamMiddleware<T>(name: string, codec: Codec<T>, query: map<string, Value>)
    : (r: Either<ErrorResponse, Option<T>>)
    ensures r == Right(None) <==> Property(query, name) == Undefined || Property(query, name) == Null
    ensures r.Left? ==> r.left.ResponseErrorValidation? && r.left.typeName == codec.name
  {
    OptionalQueryParam(query, name, codec, codec.name)
  }

  /** `OptionalProductCategoryListMiddleware(name)`: errors are reported under
      the name of the category type. */
  function OptionalProductCategoryListMiddleware(name: string, query: map<string, Value>)
    : (r: Either<ErrorResponse, Option<seq<ProductCategory>>>)
    ensures r == Right(None) <==> Property(query, name) == Undefined || Property(query, name) == Null
    ensures r.Left? ==> r.left.ResponseErrorValidation? && r.left.typeName == "ProductCategory"
  {
    OptionalQueryParam(query, name, ProductCategoryListCodec(), "ProductCategory")
  }

  /** A string parameter is answered by validating its tokens: `some` of the
      decoded list, or the token errors reported under the category type. */
  lemma CategoryMiddlewareValidatesTokens(name: string, query: map<string, Value>)
    requires name in query && query[name].Str?
    ensures var v := ValidateTokens(ProductCategoryCodec(), Tokens(query[name].s));
      OptionalProductCategoryListMiddleware(name, query) ==
        if v.Right? then Right(Some(v.right)) else Left(ResponseErrorValidation("ProductCategory", v.left))
  {
    var codec := ProductCategoryListCodec();
    CommaSeparatedValidatesTokens(ProductCategoryCodec(), query[name].s, [ContextEntry("", codec.name)]);
    assert Decode(codec, query[name]) == ValidateTokens(ProductCategoryCodec(), Tokens(query[name].s));
  }

  /** A present but empty parameter is `some([])`, not `none`. */
  lemma CategoryMiddlewareEmptyIsSomeEmpty(name: string, query: map<string, Value>)
    requires name in query && query[name].Str? && OnlySeparatorsAndWhiteSpace(query[name].s, ',')
    ensures OptionalProductCategoryListMiddleware(name, query) == Right(Some([]))
  {
    CommaSeparatedEmptyInput(ProductCategoryCodec(), query[name], [ContextEntry("", ProductCategoryListCodec().name)]);
  }

  /** The middleware's tests: a missing parameter gives `none`. */
  lemma CategoryMiddlewareMissing()
    ensures OptionalProductCategoryListMiddleware("param", map[]) == Right(None)
  {
  }

  /** A parameter holding comma-joined plain tokens: `some` of their
      categories in order when every token is a category, a validation error
      otherwise, so one invalid token fails the whole list. */
  lemma CategoryMiddlewareOnJoin(name: string, query: map<string, Value>, names: seq<string>)
    requires name in query && query[name] == Str(Join(names, ','))
    requires forall k :: 0 <= k < |names| ==> IsPlainToken(names[k])
    ensures var r := OptionalProductCategoryListMiddleware(name, query);
      && (r.Right? <==> forall k :: 0 <= k < |names| ==> ParseProductCategory(names[k]).Some?)
      && (r.Right? ==> r.right.Some? && |r.right.value| == |names|)
      && (r.Right? ==> forall k :: 0 <= k < |names| ==> Some(r.right.value[k]) == ParseProductCategory(names[k]))
      && (r.Left? ==> r.left.ResponseErrorValidation? && r.left.typeName == "ProductCategory")
  {
    TokensOfJoin(names);
    CategoryMiddlewareValidatesTokens(name, query);
    CategoryTokensDecode(names);
  }

  /** A parameter holding one plain token that is not a category is answered
      with a validation error. */
  lemma CategoryMiddlewareSingleInvalid(name: string, query: map<string, Value>, s: string)
    requires name in query && query[name] == Str(s) && IsPlainToken(s) && ParseProductCategory(s).None?
    ensures OptionalProductCategoryListMiddleware(name, query).Left?
    ensures OptionalProductCategoryListMiddleware(name, query).left.ResponseErrorValidation?
  {
    assert Join([s], ',') == s;
    CategoryMiddlewareOnJoin(name, query, [s]);
    assert [s][0] == s;
  }

  /** A parameter holding the encoding of a category list is answered with
      `some` of that list. */
  lemma CategoryMiddlewareEncoded(name: string, query: map<string, Value>, xs: seq<ProductCategory>)
    requires name in query && query[name] == ProductCategoryListCodec().encode(xs)
    ensures OptionalProductCategoryListMiddleware(name, query) == Right(Some(xs))
  {
    ProductCategoryListRoundTrip(xs, [ContextEntry("", ProductCategoryListCodec().name)]);
    OptionalQueryParamOutcomes(query, name, ProductCategoryListCodec(), "ProductCategory");
  }

  /** Two categories encode as their values joined by a comma. */
  lemma EncodePair(x: ProductCategory, y: ProductCategory)
    ensures ProductCategoryListCodec().encode([x, y]) == Str(x.EnumValue() + [','] + y.EnumValue())
  {
    var codec := ProductCategoryCodec();
    var xs := [x, y];
    assert codec.encode(x) == Str(x.EnumValue()) && codec.encode(y) == Str(y.EnumValue());
    assert forall k :: 0 <= k < |xs| ==> codec.encode(xs[k]).Str?;
    var names := [x.EnumValue(), y.EnumValue()];
    assert EncodedNames(codec, xs) == names;
    assert ProductCategoryListCodec().encode(xs) == EncodeList(codec, xs);
    assert EncodeList(codec, xs) == Str(Join(names, ','));
    assert names[1..] == [y.EnumValue()];
    assert Join(names[1..], ',') == y.EnumValue();
    assert Join(names, ',') == names[0] + [','] + Join(names[1..], ',');
  }

  /** The middleware's tests: `"something"` is not a category, so the answer is
      a validation error. */
  lemma CategoryMiddlewareInvalid()
    ensures OptionalProductCategoryListMiddleware("param", map["param" := Str("something")]).Left?
    ensures OptionalProductCategoryListMiddleware("param", map["param" := Str("something")]).left.Kind()
      == "IResponseErrorValidation"
  {
    var query := map["param" := Str("something")];
    CategoryMiddlewareSingleInvalid("param", query, "something");
    ValidationKind(OptionalProductCategoryListMiddleware("param", query).left);
  }

  /** The middleware's tests: `"shopping,entertainment"` gives both categories,
      in order. */
  lemma CategoryMiddlewareValid()
    ensures OptionalProductCategoryListMiddleware("param", map["param" := Str("shopping,entertainment")])
      == Right(Some([Shopping, Entertainment]))
  {
    var query := map["param" := Str("shopping,entertainment")];
    ShoppingEntertainmentEncoding();
    CategoryMiddlewareEncoded("param", query, [Shopping, Entertainment]);
  }

  /** The parameter of that test is the encoding of the two categories. */
  lemma ShoppingEntertainmentEncoding()
    ensures ProductCategoryListCodec().encode([Shopping, Entertainment]) == Str("shopping,entertainment")
  {
    EncodePair(Shopping, Entertainment);
    ShoppingEntertainmentString();
  }

  /** The test's parameter spelled as the two category values. */
  lemma ShoppingEntertainmentString()
    ensures Shopping.EnumValue() + [','] + Entertainment.EnumValue() == "shopping,entertainment"
  {
    assert Shopping.EnumValue() == "shopping";
    assert Entertainment.EnumValue() == "entertainment";
  }

  /** The scenarios of the generic middleware's tests, run with `t.string`. */
  lemma StringMiddlewareScenarios()
    ensures OptionalQueryParamMiddleware("param", StringCodec(), map[]) == Right(None)
    ensures OptionalQueryParamMiddleware("param", StringCodec(), map["param" := Num(5)]).Left?
    ensures OptionalQueryParamMiddleware("param", StringCodec(), map["param" := Num(5)]).left.Kind()
      == "IResponseErrorValidation"
    ensures OptionalQueryParamMiddleware("param", StringCodec(), map["param" := Str("hello")])
      == Right(Some("hello"))
  {
  }
}
