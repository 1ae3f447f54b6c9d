/** The renderable Rust types and values.

    A `Ty` is the static Rust type whose `CompileConst` implementation is
    used; a `Val` is a value of such a type, carrying the static type
    information Rust knows but the value alone does not show (the element
    type of a vector, the payload type of a `None`, the other branch of an
    `Either`). */
module Values {

  /** The integer types of the `numerics!` list. */
  datatype IntKind = U8 | U16 | U32 | U64 | U128 | Usize | I8 | I16 | I32 | I64 | I128 | Isize

  /** `String`, `&str` and `str`: the three types of the `strings!` list. */
  datatype StrKind = OwnedString | StrRef | StrSlice

  /** `Vec<T>` and `&[T]`: the two types of the `slices!` list. */
  datatype SeqKind = VecKind | SliceRef

  /** `Box<T>`, `Cow<'_, T>`, `Rc<T>` and `Arc<T>`: the `derefs!` list. */
  datatype Wrapper = BoxW | CowW | RcW | ArcW

  /** The `core::net` address types. */
  datatype AddrKind = Ipv4Kind | Ipv6Kind | IpKind | SocketKind | SocketV4Kind | SocketV6Kind

  datatype Ty =
    | IntTy(intKind: IntKind)
    | BoolTy
    | CharTy
    | StrTy(strKind: StrKind)
    | SliceTy(seqKind: SeqKind, elem: Ty)
    | ArrayTy(arrayElem: Ty, len: nat)
    | OptionTy(payload: Ty)
    | WrapTy(wrapper: Wrapper, wrapped: Ty)
    | TupleTy(comps: seq<Ty>)
    | AddrTy(addrKind: AddrKind)
    | EitherTy(leftTy: Ty, rightTy: Ty)

  datatype Ipv4Addr = Ipv4Addr(octets: seq<nat>)
  datatype Ipv6Addr = Ipv6Addr(segments: seq<nat>)
  datatype IpAddr = V4(v4: Ipv4Addr) | V6(v6: Ipv6Addr)
  datatype SocketAddrV4 = SocketAddrV4(ip4: Ipv4Addr, port4: nat)
  datatype SocketAddrV6 = SocketAddrV6(ip6: Ipv6Addr, port6: nat, flowinfo: nat, scopeId: nat)
  datatype SocketAddr = SockV4(sv4: SocketAddrV4) | SockV6(sv6: SocketAddrV6)

  /** A value of one of the six address types. */
  datatype Address =
    | Ipv4(ipv4: Ipv4Addr)
    | Ipv6(ipv6: Ipv6Addr)
    | Ip(ip: IpAddr)
    | Socket(socket: SocketAddr)
    | SocketV4(socketV4: SocketAddrV4)
    | SocketV6(socketV6: SocketAddrV6)

  datatype Val =
    | IntV(kind: IntKind, i: int)
    | BoolV(b: bool)
    | CharV(c: char)
    | StrV(strKind: StrKind, s: string)
    | SeqV(seqKind: SeqKind, elemTy: Ty, elems: seq<Val>)
    | ArrayV(arrayElemTy: Ty, items: seq<Val>)
    | NoneV(noneTy: Ty)
    | SomeV(some: Val)
    | WrapV(wrapper: Wrapper, inner: Val)
    | TupleV(comps: seq<Val>)
    | AddrV(addr: Address)
    | LeftV(left: Val, otherRight: Ty)
    | RightV(otherLeft: Ty, right: Val)

  /** Bit width of an integer kind; `usize`/`isize` are taken as 64 bits. */
  function Bits(k: IntKind): nat
  {
    match k
    case U8 | I8 => 8
    case U16 | I16 => 16
    case U32 | I32 => 32
    case U64 | I64 | Usize | Isize => 64
    case U128 | I128 => 128
  }

  predicate Signed(k: IntKind)
  {
    k.I8? || k.I16? || k.I32? || k.I64? || k.I128? || k.Isize?
  }

  function Pow2(n: nat): (r: nat)
    ensures r >= 1
  {
    if n == 0 then 1 else 2 * Pow2(n - 1)
  }

  /** The values of an integer kind: two's complement for the signed kinds. */
  predicate InRange(k: IntKind, i: int)
  {
    if Signed(k) then -(Pow2(Bits(k) - 1) as int) <= i < Pow2(Bits(k) - 1)
    else 0 <= i < Pow2(Bits(k))
  }

  /** Tuple implementations exist for arity 0 and for arities 2 to 16. */
  predicate TupleArity(n: nat)
  {
    n == 0 || 2 <= n <= 16
  }

  /** Fixed arrays `[T; N]` are implemented for N from 0 to 256. */
  const MaxArrayLen: nat := 256

  /** The types that have a `CompileConst` implementation. */
  predicate WFTy(t: Ty)
  {
    match t
    case SliceTy(_, e) => WFTy(e)
    case ArrayTy(e, n) => n <= MaxArrayLen && WFTy(e)
    case OptionTy(p) => WFTy(p)
    case WrapTy(_, w) => WFTy(w)
    case TupleTy(ts) => TupleArity(|ts|) && forall i :: 0 <= i < |ts| ==> WFTy(ts[i])
    case EitherTy(l, r) => WFTy(l) && WFTy(r)
    case _ => true
  }

  function AddrKindOf(a: Address): AddrKind
  {
    match a
    case Ipv4(_) => Ipv4Kind
    case Ipv6(_) => Ipv6Kind
    case Ip(_) => IpKind
    case Socket(_) => SocketKind
    case SocketV4(_) => SocketV4Kind
    case SocketV6(_) => SocketV6Kind
  }

  /** The static type of a value. */
  function TypeOf(v: Val): Ty
  {
    match v
    case IntV(k, _) => IntTy(k)
    case BoolV(_) => BoolTy
    case CharV(_) => CharTy
    case StrV(sk, _) => StrTy(sk)
    case SeqV(sk, et, _) => SliceTy(sk, et)
    case ArrayV(et, es) => ArrayTy(et, |es|)
    case NoneV(t) => OptionTy(t)
    case SomeV(x) => OptionTy(TypeOf(x))
    case WrapV(w, x) => WrapTy(w, TypeOf(x))
    case TupleV(cs) => TupleTy(TypesOf(cs))
    case AddrV(a) => AddrTy(AddrKindOf(a))
    case LeftV(l, rt) => EitherTy(TypeOf(l), rt)
    case RightV(lt, r) => EitherTy(lt, TypeOf(r))
  }

  function TypesOf(vs: seq<Val>): (ts: seq<Ty>)
    ensures |ts| == |vs| && forall j :: 0 <= j < |vs| ==> ts[j] == TypeOf(vs[j])
  {
    if |vs| == 0 then [] else [TypeOf(vs[0])] + TypesOf(vs[1..])
  }

  predicate Ipv4Valid(a: Ipv4Addr)
  {
    |a.octets| == 4 && forall i :: 0 <= i < 4 ==> a.octets[i] < 256
  }

  predicate Ipv6Valid(a: Ipv6Addr)
  {
    |a.segments| == 8 && forall i :: 0 <= i < 8 ==> a.segments[i] < 65536
  }

  predicate IpValid(ip: IpAddr)
  {
    match ip
    case V4(a) => Ipv4Valid(a)
    case V6(a) => Ipv6Valid(a)
  }

  predicate SocketV4Valid(s: SocketAddrV4)
  {
    Ipv4Valid(s.ip4) && s.port4 < 65536
  }

  predicate SocketV6Valid(s: SocketAddrV6)
  {
    Ipv6Valid(s.ip6) && s.port6 < 65536 && s.flowinfo < Pow2(32) && s.scopeId < Pow2(32)
  }

  predicate AddressValid(a: Address)
  {
    match a
    case Ipv4(x) => Ipv4Valid(x)
    case Ipv6(x) => Ipv6Valid(x)
    case Ip(x) => IpValid(x)
    case Socket(SockV4(x)) => SocketV4Valid(x)
    case Socket(SockV6(x)) => SocketV6Valid(x)
    case SocketV4(x) => SocketV4Valid(x)
    case SocketV6(x) => SocketV6Valid(x)
  }

  /** A value Rust can hold: integers in range, container elements of the
      declared element type, implemented tuple arities and array lengths,
      address fields within their widths. */
  predicate WF(v: Val)
  {
    match v
    case IntV(k, i) => InRange(k, i)
    case SeqV(_, et, es) => WFTy(et) && forall j :: 0 <= j < |es| ==> WF(es[j]) && TypeOf(es[j]) == et
    case ArrayV(et, es) =>
      |es| <= MaxArrayLen && WFTy(et) && forall j :: 0 <= j < |es| ==> WF(es[j]) && TypeOf(es[j]) == et
    case NoneV(t) => WFTy(t)
    case SomeV(x) => WF(x)
    case WrapV(_, x) => WF(x)
    case TupleV(cs) => TupleArity(|cs|) && forall j :: 0 <= j < |cs| ==> WF(cs[j])
    case AddrV(a) => AddressValid(a)
    case LeftV(l, rt) => WF(l) && WFTy(rt)
    case RightV(lt, r) => WFTy(lt) && WF(r)
    case _ => true
  }

  /** `v` is a value of the Rust type `t`. */
  predicate HasType(v: Val, t: Ty)
  {
    WF(v) && TypeOf(v) == t
  }

  /** The types with a `CompileConstArray` implementation: the string types,
      `Vec`/slices, the wrappers around such a type, and tuples all of whose
      components are such types. Fixed arrays, `Option`, scalars, addresses
      and `Either` have none. */
  predicate HasArrayPath(t: Ty)
  {
    match t
    case StrTy(_) => true
    case SliceTy(_, _) => true
    case WrapTy(_, w) => HasArrayPath(w)
    case TupleTy(ts) => forall i :: 0 <= i < |ts| ==> HasArrayPath(ts[i])
    case _ => false
  }

  /** Size of a type, used as a termination measure by the decoder. */
  function Size(t: Ty): (n: nat)
    ensures n >= 1
  {
    match t
    case SliceTy(_, e) => 1 + Size(e)
    case ArrayTy(e, _) => 1 + Size(e)
    case OptionTy(p) => 1 + Size(p)
    case WrapTy(_, w) => 1 + Size(w)
    case TupleTy(ts) => 1 + SizeOfAll(ts)
    case EitherTy(l, r) => 1 + Size(l) + Size(r)
    case _ => 1
  }

  function SizeOfAll(ts: seq<Ty>): nat
  {
    if |ts| == 0 then 0 else Size(ts[0]) + SizeOfAll(ts[1..])
  }

  /** Every well-formed value has a type that is implemented: the recursion
      of the renderers never reaches an unimplemented tuple arity or array
      length. */
  lemma {:induction false} TypeOfWellFormed(v: Val)
    requires WF(v)
    ensures WFTy(TypeOf(v))
  {
    match v
    case SomeV(x) => TypeOfWellFormed(x);
    case WrapV(_, x) => TypeOfWellFormed(x);
    case TupleV(cs) =>
      forall j | 0 <= j < |cs| ensures WFTy(TypesOf(cs)[j]) {
        TypeOfWellFormed(cs[j]);
      }
    case LeftV(l, _) => TypeOfWellFormed(l);
    case RightV(_, r) => TypeOfWellFormed(r);
    case _ =>
  }
}
