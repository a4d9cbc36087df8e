/** The io-ts runtime types the decoding layer is built from: a codec is a
    name, an `is` guard (the field `guard`, since `is` is a Dafny keyword), a
    `validate` function that threads a context path and returns either the
    list of validation errors or the decoded value, and an `encode` function
    back to a JavaScript value. The array combinator
    validates every element and collects the errors of all failing elements,
    in element order. */
module IoTs {
  import opened Wrappers
  import opened Js

  /** One step of the path to the offending value: the key (`""` at the root,
      the decimal index inside an array) and the name of the codec used there. */
  datatype ContextEntry = ContextEntry(key: string, typeName: string)

  type Context = seq<ContextEntry>

  datatype ValidationError = ValidationError(value: Value, context: Context)

  type Errors = seq<ValidationError>

  type Validation<T> = Either<Errors, T>

  datatype Codec<!T> = Codec(
    name: string,
    guard: Value -> bool,
    validate: (Value, Context) -> Validation<T>,
    encode: T -> Value)

  /** `t.failure(value, context)`: a single error at the current path. */
  function Failure<T>(value: Value, context: Context): (r: Validation<T>)
    ensures r.Left? && r.left == [ValidationError(value, context)]
  {
    Left([ValidationError(value, context)])
  }

  /** `codec.decode(input)`: validation from the root context, whose only
      entry names the codec itself. */
  function Decode<T>(codec: Codec<T>, input: Value): Validation<T>
  {
    codec.validate(input, [ContextEntry("", codec.name)])
  }

  /** `is` agrees with `validate`: whatever `is` accepts validates, at any
      path, to a value that encodes back to the input. */
  ghost predicate GuardAgrees<T>(codec: Codec<T>)
  {
    forall v, c :: codec.guard(v) ==>
      codec.validate(v, c).Right? && codec.encode(codec.validate(v, c).right) == v
  }

  /** The path of the element at index `k` below the array's path `c`. */
  function ElementContext(c: Context, k: nat, typeName: string): Context
  {
    c + [ContextEntry(NatToString(k), typeName)]
  }

  /** Validation of element `k` of an array. */
  function ValidateAt<T>(codec: Codec<T>, items: seq<Value>, c: Context, k: nat): Validation<T>
    requires k < |items|
  {
    codec.validate(items[k], ElementContext(c, k, codec.name))
  }

  /** Validation of the elements from index `i` on. The result is a success
      exactly when every element validates, and then holds their values in
      order; otherwise it holds the errors of every failing element and no
      other error. */
  function ValidateFrom<T>(codec: Codec<T>, items: seq<Value>, c: Context, i: nat): (r: Validation<seq<T>>)
    requires i <= |items|
    decreases |items| - i
    ensures r.Right? <==> forall k :: i <= k < |items| ==> ValidateAt(codec, items, c, k).Right?
    ensures r.Right? ==> |r.right| == |items| - i
    ensures r.Right? ==> forall k :: i <= k < |items| ==> r.right[k - i] == ValidateAt(codec, items, c, k).right
    ensures r.Left? ==> forall e :: e in r.left ==>
      exists k :: i <= k < |items| && ValidateAt(codec, items, c, k).Left? && e in ValidateAt(codec, items, c, k).left
    ensures forall k :: i <= k < |items| && ValidateAt(codec, items, c, k).Left? ==>
      r.Left? && forall e :: e in ValidateAt(codec, items, c, k).left ==> e in r.left
  {
    if i == |items| then Right([])
    else
      var head := ValidateAt(codec, items, c, i);
      var tail := ValidateFrom(codec, items, c, i + 1);
      match (head, tail)
      case (Left(e1), Left(e2)) => Left(e1 + e2)
      case (Left(e1), Right(_)) => Left(e1)
      case (Right(_), Left(e2)) => Left(e2)
      case (Right(x), Right(xs)) => Right([x] + xs)
  }

  /** The errors of the failing elements from index `i` on, concatenated in
      element order. */
  function ErrorsFrom<T>(codec: Codec<T>, items: seq<Value>, c: Context, i: nat): Errors
    requires i <= |items|
    decreases |items| - i
  {
    if i == |items| then []
    else
      var head := ValidateAt(codec, items, c, i);
      (if head.Left? then head.left else []) + ErrorsFrom(codec, items, c, i + 1)
  }

  /** A failure of the elements holds exactly the failing elements' errors,
      in element order; a success leaves no element error behind. */
  lemma {:induction false} ValidateFromErrorsInOrder<T>(codec: Codec<T>, items: seq<Value>, c: Context, i: nat)
    requires i <= |items|
    decreases |items| - i
    ensures var r := ValidateFrom(codec, items, c, i);
      ErrorsFrom(codec, items, c, i) == if r.Left? then r.left else []
  {
    if i < |items| {
      ValidateFromErrorsInOrder(codec, items, c, i + 1);
    }
  }

  /** `is` of `t.readonlyArray(codec)`: an array whose every element passes `is`. */
  predicate IsArrayOf<T>(codec: Codec<T>, v: Value)
  {
    v.Arr? && forall k :: 0 <= k < |v.items| ==> codec.guard(v.items[k])
  }

  /** Validation of `t.readonlyArray(codec)`: anything but an array fails at
      the array's own path; an array validates element by element. */
  function ValidateArray<T>(codec: Codec<T>, v: Value, c: Context): (r: Validation<seq<T>>)
    ensures !v.Arr? ==> r == Failure(v, c)
    ensures v.Arr? ==> r == ValidateFrom(codec, v.items, c, 0)
  {
    if v.Arr? then ValidateFrom(codec, v.items, c, 0) else Failure(v, c)
  }

  /** Encoding of `t.readonlyArray(codec)`: element by element. */
  function EncodeArray<T>(codec: Codec<T>, xs: seq<T>): (r: Value)
    ensures r.Arr? && |r.items| == |xs|
    ensures forall k :: 0 <= k < |xs| ==> r.items[k] == codec.encode(xs[k])
  {
    Arr(seq(|xs|, k requires 0 <= k < |xs| => codec.encode(xs[k])))
  }

  /** `t.readonlyArray(codec)`. */
  function ReadonlyArrayOf<T>(codec: Codec<T>): (r: Codec<seq<T>>)
    ensures r.name == "ReadonlyArray<" + codec.name + ">"
    ensures forall v :: r.guard(v) == IsArrayOf(codec, v)
    ensures forall v, c :: r.validate(v, c) == ValidateArray(codec, v, c)
  {
    Codec(
      "ReadonlyArray<" + codec.name + ">",
      (v: Value) => IsArrayOf(codec, v),
      (v: Value, c: Context) => ValidateArray(codec, v, c),
      (xs: seq<T>) => EncodeArray(codec, xs))
  }

  /** The array codec inherits the agreement of `is` and `validate` from its
      element codec. */
  lemma ReadonlyArrayGuardAgrees<T>(codec: Codec<T>)
    requires GuardAgrees(codec)
    ensures GuardAgrees(ReadonlyArrayOf(codec))
  {
    var arr := ReadonlyArrayOf(codec);
    forall v, c | arr.guard(v)
      ensures arr.validate(v, c).Right? && arr.encode(arr.validate(v, c).right) == v
    {
      var r := ValidateFrom(codec, v.items, c, 0);
      assert forall k :: 0 <= k < |v.items| ==> ValidateAt(codec, v.items, c, k).Right?;
      assert arr.validate(v, c) == r;
      var enc := EncodeArray(codec, r.right);
      assert enc.items == v.items by {
        forall k | 0 <= k < |v.items| ensures enc.items[k] == v.items[k] {
          assert r.right[k] == ValidateAt(codec, v.items, c, k).right;
        }
      }
    }
  }

  /** `t.string`. */
  function StringCodec(): Codec<string>
  {
    Codec(
      "string",
      (v: Value) => v.Str?,
      (v: Value, c: Context) => if v.Str? then Right(v.s) else Failure(v, c),
      (s: string) => Str(s))
  }

  /** `t.string` accepts exactly the strings and returns them unchanged. */
  lemma StringCodecDecodes(v: Value)
    ensures GuardAgrees(StringCodec())
    ensures Decode(StringCodec(), v) == if v.Str? then Right(v.s) else Failure(v, [ContextEntry("", "string")])
  {
  }
}
