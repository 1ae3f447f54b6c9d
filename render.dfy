/** The `CompileConst` and `CompileConstArray` implementations: one `match`
    arm per implementing type stands for the trait dispatch.

    `ConstType` takes only a type, so the type spelling cannot depend on a
    value. `ConstArrayType` and `ConstArrayVal` take a value because the
    array path spells the length of that particular value. */
module Render {
  import opened Text
  import opened Values
  import opened Declarations
  import EitherRender

  /** The type keyword, which is also the literal suffix of an integer. */
  function IntKeyword(k: IntKind): (r: string)
    ensures |r| >= 2 && (r[0] == 'u' || r[0] == 'i')
  {
    match k
    case U8 => "u8"
    case U16 => "u16"
    case U32 => "u32"
    case U64 => "u64"
    case U128 => "u128"
    case Usize => "usize"
    case I8 => "i8"
    case I16 => "i16"
    case I32 => "i32"
    case I64 => "i64"
    case I128 => "i128"
    case Isize => "isize"
  }

  /** `"[{elem}; {n}]"`: the sized array type, for fixed arrays and for the
      array path of strings and `Vec`/slices. */
  function ArrayTypeText(elem: string, n: nat): string
  {
    Enclose("[", elem + "; " + NatToDecimal(n), "]")
  }

  function AddressType(k: AddrKind): string
  {
    match k
    case Ipv4Kind => "core::net::Ipv4Addr"
    case Ipv6Kind => "core::net::Ipv6Addr"
    case IpKind => "core::net::IpAddr"
    case SocketKind => "core::net::SocketAddr"
    case SocketV4Kind => "core::net::SocketAddrV4"
    case SocketV6Kind => "core::net::SocketAddrV6"
  }

  /** `const_type()`. */
  function ConstType(t: Ty): (r: string)
    ensures |r| > 0
  {
    match t
    case IntTy(k) => IntKeyword(k)
    case BoolTy => "bool"
    case CharTy => "char"
    case StrTy(_) => "&'static str"
    case SliceTy(_, e) => Enclose("&'static [", ConstType(e), "]")
    case ArrayTy(e, n) => ArrayTypeText(ConstType(e), n)
    case OptionTy(p) => Enclose("Option<", ConstType(p), ">")
    case WrapTy(_, w) => ConstType(w)
    case TupleTy(ts) => TupleText(ConstTypes(ts))
    case AddrTy(k) => AddressType(k)
    case EitherTy(l, r) => EitherRender.EitherType(ConstType(l), ConstType(r))
  }

  /** The type spellings of a list of types, in order. */
  function ConstTypes(ts: seq<Ty>): (rs: seq<string>)
    ensures |rs| == |ts| && forall j :: 0 <= j < |ts| ==> rs[j] == ConstType(ts[j])
  {
    if |ts| == 0 then [] else [ConstType(ts[0])] + ConstTypes(ts[1..])
  }

  /** The shape shared by every tuple renderer, on both paths: the parts
      of the components, comma-joined in order, between parentheses. */
  function TupleText(parts: seq<string>): string
  {
    Enclose("(", Join(parts, ","), ")")
  }

  /** Unsuffixed decimal texts of a list of numbers, in order. */
  function Decimals(ns: seq<nat>): (ds: seq<string>)
    ensures |ds| == |ns| && forall j :: 0 <= j < |ns| ==> ds[j] == NatToDecimal(ns[j])
  {
    if |ns| == 0 then [] else [NatToDecimal(ns[0])] + Decimals(ns[1..])
  }

  /** The module path every address type is spelled with. */
  const NetPath: string := "core::net::"

  /** A text opening with an opening on the `core::net::` path is itself on
      that path. */
  lemma OnNetPath(r: string, open: string)
    requires StartsWith(r, open) && StartsWith(open, NetPath)
    ensures StartsWith(r, NetPath) && r[0] == 'c'
  {
    StartsWithPrefix(r, open, NetPath);
    assert r[0] == r[..|NetPath|][0];
  }

  function Ipv4Literal(a: Ipv4Addr): (r: string)
    ensures StartsWith(r, "core::net::Ipv4Addr::new(") && StartsWith(r, NetPath) && r[0] == 'c' && r[|r| - 1] == ')'
  {
    var r := Enclose("core::net::Ipv4Addr::new(", Join(Decimals(a.octets), ","), ")");
    OnNetPath(r, "core::net::Ipv4Addr::new(");
    r
  }

  function Ipv6Literal(a: Ipv6Addr): (r: string)
    ensures StartsWith(r, "core::net::Ipv6Addr::new(") && StartsWith(r, NetPath) && r[0] == 'c' && r[|r| - 1] == ')'
  {
    var r := Enclose("core::net::Ipv6Addr::new(", Join(Decimals(a.segments), ","), ")");
    OnNetPath(r, "core::net::Ipv6Addr::new(");
    r
  }

  function IpLiteral(ip: IpAddr): (r: string)
    ensures ip.V4? ==> StartsWith(r, "core::net::IpAddr::V4(")
    ensures ip.V6? ==> StartsWith(r, "core::net::IpAddr::V6(")
    ensures StartsWith(r, NetPath) && r[0] == 'c' && r[|r| - 1] == ')'
  {
    match ip
    case V4(a) =>
      var r := Enclose("core::net::IpAddr::V4(", Ipv4Literal(a), ")");
      OnNetPath(r, "core::net::IpAddr::V4(");
      r
    case V6(a) =>
      var r := Enclose("core::net::IpAddr::V6(", Ipv6Literal(a), ")");
      OnNetPath(r, "core::net::IpAddr::V6(");
      r
  }

  /** `SocketAddr::ip()`. */
  function SocketIp(sa: SocketAddr): IpAddr
  {
    match sa
    case SockV4(x) => V4(x.ip4)
    case SockV6(x) => V6(x.ip6)
  }

  /** `SocketAddr::port()`. */
  function SocketPort(sa: SocketAddr): nat
  {
    match sa
    case SockV4(x) => x.port4
    case SockV6(x) => x.port6
  }

  /** A `SocketAddr` is spelled through `SocketAddr::new(ip, port)`,
      whichever family it holds. */
  function SocketLiteral(sa: SocketAddr): (r: string)
    ensures StartsWith(r, "core::net::SocketAddr::new(") && StartsWith(r, NetPath) && r[0] == 'c' && r[|r| - 1] == ')'
  {
    var r := Enclose("core::net::SocketAddr::new(", Join([IpLiteral(SocketIp(sa)), NatToDecimal(SocketPort(sa))], ", "), ")");
    OnNetPath(r, "core::net::SocketAddr::new(");
    r
  }

  function SocketV4Literal(x: SocketAddrV4): (r: string)
    ensures StartsWith(r, "core::net::SocketAddrV4::new(") && StartsWith(r, NetPath) && r[0] == 'c' && r[|r| - 1] == ')'
  {
    var r := Enclose("core::net::SocketAddrV4::new(", Join([Ipv4Literal(x.ip4), NatToDecimal(x.port4)], ", "), ")");
    OnNetPath(r, "core::net::SocketAddrV4::new(");
    r
  }

  function SocketV6Literal(x: SocketAddrV6): (r: string)
    ensures StartsWith(r, "core::net::SocketAddrV6::new(") && StartsWith(r, NetPath) && r[0] == 'c' && r[|r| - 1] == ')'
  {
    var r := Enclose("core::net::SocketAddrV6::new(",
                     Join([Ipv6Literal(x.ip6), NatToDecimal(x.port6), NatToDecimal(x.flowinfo), NatToDecimal(x.scopeId)], ", "),
                     ")");
    OnNetPath(r, "core::net::SocketAddrV6::new(");
    r
  }

  /** Every address literal names its type by its full `core::net::` path. */
  function AddressLiteral(a: Address): (r: string)
    ensures StartsWith(r, NetPath) && r[0] == 'c'
  {
    match a
    case Ipv4(x) => Ipv4Literal(x)
    case Ipv6(x) => Ipv6Literal(x)
    case Ip(x) => IpLiteral(x)
    case Socket(x) => SocketLiteral(x)
    case SocketV4(x) => SocketV4Literal(x)
    case SocketV6(x) => SocketV6Literal(x)
  }

  /** `const_val()`. Every literal is non-empty and never starts with the
      `]` that closes a list, so an element can always be told from the end
      of the list it stands in. */
  function ConstVal(v: Val): (r: string)
    ensures |r| > 0 && r[0] != ']'
  {
    match v
    case IntV(k, i) => IntToDecimal(i) + IntKeyword(k)
    case BoolV(b) => if b then "true" else "false"
    case CharV(c) => Enclose("'", [c], "'")
    case StrV(_, s) => Enclose("\"", s, "\"")
    case SeqV(_, _, es) => Enclose("&[", Join(ConstVals(es), ","), "]")
    case ArrayV(_, es) => Enclose("[", Join(ConstVals(es), ","), "]")
    case NoneV(_) => "None"
    case SomeV(x) => Enclose("Some(", ConstVal(x), ")")
    case WrapV(_, x) => ConstVal(x)
    case TupleV(cs) => TupleText(ConstVals(cs))
    case AddrV(a) => AddressLiteral(a)
    case LeftV(l, _) => EitherRender.LeftLiteral(ConstVal(l))
    case RightV(_, r) => EitherRender.RightLiteral(ConstVal(r))
  }

  /** The literals of a list of values, in order. */
  function ConstVals(vs: seq<Val>): (rs: seq<string>)
    ensures |rs| == |vs| && forall j :: 0 <= j < |vs| ==> rs[j] == ConstVal(vs[j])
  {
    if |vs| == 0 then [] else [ConstVal(vs[0])] + ConstVals(vs[1..])
  }

  /** `'c',`: one character of a string's array literal, with its comma. */
  function CharItem(c: char): string
  {
    Enclose("'", [c], "',")
  }

  /** The `concat()` of the items of every character, in order: four
      characters per character of the string. */
  function CharItems(s: string): (r: string)
    ensures |r| == 4 * |s|
  {
    if |s| == 0 then "" else CharItem(s[0]) + CharItems(s[1..])
  }

  /** `const_array_type()`: a bracketed array type, or a parenthesized
      tuple of them. */
  function ConstArrayType(v: Val): (r: string)
    requires HasArrayPath(TypeOf(v))
    ensures |r| >= 2
    ensures (r[0] == '[' && r[|r| - 1] == ']') || (r[0] == '(' && r[|r| - 1] == ')')
  {
    match v
    case StrV(_, s) => ArrayTypeText("char", |s|)
    case SeqV(_, et, es) => ArrayTypeText(ConstType(et), |es|)
    case WrapV(_, x) => ConstArrayType(x)
    case TupleV(cs) => TupleText(ConstArrayTypes(cs))
  }

  /** The array-path types of the components, in order. */
  function ConstArrayTypes(vs: seq<Val>): (rs: seq<string>)
    requires forall j :: 0 <= j < |vs| ==> HasArrayPath(TypeOf(vs[j]))
    ensures |rs| == |vs| && forall j :: 0 <= j < |vs| ==> rs[j] == ConstArrayType(vs[j])
  {
    if |vs| == 0 then [] else [ConstArrayType(vs[0])] + ConstArrayTypes(vs[1..])
  }

  /** `const_array_val()`: a bracketed array literal, or a parenthesized
      tuple of them; never a `&` reference, unlike the slice literal. */
  function ConstArrayVal(v: Val): (r: string)
    requires HasArrayPath(TypeOf(v))
    ensures |r| >= 2
    ensures (r[0] == '[' && r[|r| - 1] == ']') || (r[0] == '(' && r[|r| - 1] == ')')
  {
    match v
    case StrV(_, s) => Enclose("[", CharItems(s), "]")
    case SeqV(_, _, es) => Enclose("[", Join(ConstVals(es), ","), "]")
    case WrapV(_, x) => ConstArrayVal(x)
    case TupleV(cs) => TupleText(ConstArrayVals(cs))
  }

  /** The array-path literals of the components, in order. */
  function ConstArrayVals(vs: seq<Val>): (rs: seq<string>)
    requires forall j :: 0 <= j < |vs| ==> HasArrayPath(TypeOf(vs[j]))
    ensures |rs| == |vs| && forall j :: 0 <= j < |vs| ==> rs[j] == ConstArrayVal(vs[j])
  {
    if |vs| == 0 then [] else [ConstArrayVal(vs[0])] + ConstArrayVals(vs[1..])
  }

  /** `declaration()`: the statement declaring `name` with the value's type
      spelling and literal. */
  function Declaration(attrs: string, vis: string, d: DeclarationType, name: string, v: Val): (r: string)
    ensures StartsWith(r, DeclHead(attrs, vis))
    ensures EndsWith(r, TypedValue(ConstType(TypeOf(v)), ConstVal(v)))
  {
    Assemble(attrs, vis, d, name, ConstType(TypeOf(v)), ConstVal(v))
  }

  /** `const_declaration()`: the keyword after the head is `const`. */
  function ConstDeclaration(attrs: string, vis: string, name: string, v: Val): (r: string)
    ensures StartsWith(r, DeclHead(attrs, vis) + "const")
    ensures EndsWith(r, TypedValue(ConstType(TypeOf(v)), ConstVal(v)))
  {
    PrefixOfThree(DeclHead(attrs, vis), "const", " " + name + TypedValue(ConstType(TypeOf(v)), ConstVal(v)));
    Declaration(attrs, vis, Const, name, v)
  }

  /** `static_declaration()`: the keyword after the head is `static`. */
  function StaticDeclaration(attrs: string, vis: string, name: string, v: Val): (r: string)
    ensures StartsWith(r, DeclHead(attrs, vis) + "static")
    ensures EndsWith(r, TypedValue(ConstType(TypeOf(v)), ConstVal(v)))
  {
    PrefixOfThree(DeclHead(attrs, vis), "static", " " + name + TypedValue(ConstType(TypeOf(v)), ConstVal(v)));
    Declaration(attrs, vis, Static, name, v)
  }

  /** `array_declaration()`: the same statement with the array path's type
      spelling and literal. */
  function ArrayDeclaration(attrs: string, vis: string, d: DeclarationType, name: string, v: Val): (r: string)
    requires HasArrayPath(TypeOf(v))
    ensures StartsWith(r, DeclHead(attrs, vis))
    ensures EndsWith(r, TypedValue(ConstArrayType(v), ConstArrayVal(v)))
  {
    Assemble(attrs, vis, d, name, ConstArrayType(v), ConstArrayVal(v))
  }

  /** `const_array_declaration()`: the keyword after the head is `const`. */
  function ConstArrayDeclaration(attrs: string, vis: string, name: string, v: Val): (r: string)
    requires HasArrayPath(TypeOf(v))
    ensures StartsWith(r, DeclHead(attrs, vis) + "const")
    ensures EndsWith(r, TypedValue(ConstArrayType(v), ConstArrayVal(v)))
  {
    PrefixOfThree(DeclHead(attrs, vis), "const", " " + name + TypedValue(ConstArrayType(v), ConstArrayVal(v)));
    ArrayDeclaration(attrs, vis, Const, name, v)
  }

  /** `static_array_declaration()`: the keyword after the head is `static`. */
  function StaticArrayDeclaration(attrs: string, vis: string, name: string, v: Val): (r: string)
    requires HasArrayPath(TypeOf(v))
    ensures StartsWith(r, DeclHead(attrs, vis) + "static")
    ensures EndsWith(r, TypedValue(ConstArrayType(v), ConstArrayVal(v)))
  {
    PrefixOfThree(DeclHead(attrs, vis), "static", " " + name + TypedValue(ConstArrayType(v), ConstArrayVal(v)));
    ArrayDeclaration(attrs, vis, Static, name, v)
  }

  /** `const_definition()` of every type modelled here: the types are defined
      in the standard library (or in `either`), so no definition is emitted,
      whatever attributes and visibility are asked for. */
  function ConstDefinition(attrs: string, vis: string): (r: string)
    ensures r == ""
  {
    ""
  }
}
