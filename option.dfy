/** The two-variant option container of deps/option: `Option` and its
    `const`-payload twin `OptionView` are one generic datatype here. A panic
    of `unwrap`/`expect` on `None` is a precondition. */
module Options {

  /** A raw pointer (`void *`): an address, with 0 standing for `NULL`. */
  type Pointer = nat

  const Null: Pointer := 0

  datatype Option<+T> = None | Some(value: T) {

    /** `Option_isNone`. */
    predicate IsNone()
      ensures IsNone() <==> this == None
    {
      None?
    }

    /** `Option_isSome`: the exact complement of `IsNone`. */
    predicate IsSome()
      ensures IsSome() <==> !IsNone()
    {
      Some?
    }

    /** `Option_map`: `None` stays `None`, `Some(v)` becomes `f(v)`. The
        callback itself returns an option, as in the source. */
    function Map<U>(f: T -> Option<U>): (r: Option<U>)
      ensures IsNone() ==> r == None
      ensures IsSome() ==> r == f(value)
    {
      match this
      case None => None
      case Some(v) => f(v)
    }

    /** `Option_chain`: the source gives it the same definition as `map`. */
    function Chain<U>(f: T -> Option<U>): (r: Option<U>)
      ensures IsNone() ==> r == None
      ensures IsSome() ==> r == f(value)
    {
      Map(f)
    }

    /** `Option_alt`: this option if it holds a value, `a` otherwise. */
    function Alt(a: Option<T>): (r: Option<T>)
      ensures IsNone() ==> r == a
      ensures IsSome() ==> r == this
    {
      if None? then a else this
    }

    /** `Option_fold`: exactly one of the two callbacks gives the result. */
    function Fold<R>(whenNone: () -> R, whenSome: T -> R): (r: R)
      ensures IsNone() ==> r == whenNone()
      ensures IsSome() ==> r == whenSome(value)
    {
      match this
      case None => whenNone()
      case Some(v) => whenSome(v)
    }

    /** `Option_getOr`. */
    function GetOr(defaultValue: T): (r: T)
      ensures IsSome() ==> r == value
      ensures IsNone() ==> r == defaultValue
    {
      match this
      case None => defaultValue
      case Some(v) => v
    }

    /** `Option_getOrElse`: `f` gives the result only for `None`. */
    function GetOrElse(f: () -> T): (r: T)
      ensures IsSome() ==> r == value
      ensures IsNone() ==> r == f()
    {
      match this
      case None => f()
      case Some(v) => v
    }

    /** `__Option_unwrap`: the panic on `None` is excluded by the
        precondition. */
    function Unwrap(): (r: T)
      requires IsSome()
      ensures Some(r) == this
    {
      value
    }

    /** `__Option_expect`: like `Unwrap`; the message only matters to the
        panic, which the precondition excludes. */
    function Expect(message: string): (r: T)
      requires IsSome()
      ensures Some(r) == this
    {
      value
    }

    /** `Option_toView`: the same variant and the same payload, seen as an
        `OptionView`. */
    function ToView(): (r: Option<T>)
      ensures r.IsSome() <==> IsSome()
      ensures IsSome() ==> r.Unwrap() == Unwrap()
    {
      match this
      case None => None
      case Some(v) => Some(v)
    }
  }

  /** `Option_fromNullable`: `NULL` gives `None`, any other pointer `Some`. */
  function FromNullable(p: Pointer): (r: Option<Pointer>)
    ensures r.IsNone() <==> p == Null
    ensures r.IsSome() ==> r.Unwrap() == p
  {
    if p == Null then None else Some(p)
  }

  /** Reading a `fromNullable` back with `NULL` as default gives the pointer
      back. */
  lemma FromNullableRoundTrip(p: Pointer)
    ensures FromNullable(p).GetOr(Null) == p
  {
  }

  /** `getOr` and `getOrElse` are `fold` with the identity on the value. */
  lemma GetOrIsFold<T>(o: Option<T>, d: T, f: () -> T)
    ensures o.GetOr(d) == o.Fold(() => d, v => v)
    ensures o.GetOrElse(f) == o.Fold(f, v => v)
  {
  }

  /** On a `Some`, `unwrap`, `expect` and `getOr` agree, whatever the default. */
  lemma UnwrapIsGetOr<T>(o: Option<T>, d: T, message: string)
    requires o.IsSome()
    ensures o.Unwrap() == o.GetOr(d) == o.Expect(message)
  {
  }

  /** `chain` obeys the monad laws with `Some` as the unit. */
  lemma ChainLaws<T, U, V>(o: Option<T>, v: T, f: T -> Option<U>, g: U -> Option<V>)
    ensures Some(v).Chain(f) == f(v)
    ensures o.Chain(x => Some(x)) == o
    ensures o.Chain(f).Chain(g) == o.Chain(x => f(x).Chain(g))
  {
  }

  /** `alt` is associative with `None` as its neutral element. */
  lemma AltLaws<T>(a: Option<T>, b: Option<T>, c: Option<T>)
    ensures None.Alt(a) == a && a.Alt(None) == a
    ensures a.Alt(b).Alt(c) == a.Alt(b.Alt(c))
  {
  }

  /** `toView` changes nothing in the value. */
  lemma ToViewIdentity<T>(o: Option<T>)
    ensures o.ToView() == o
  {
  }
}
