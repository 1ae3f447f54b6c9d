/** A type-directed reader of the literals `ConstVal` writes, and the
    round-trip theorem: the literal of every well-formed, recoverable value
    (`DecodeFacts.Recoverable`) reads back as that very value. The text
    alone, given the static type, determines the value: no two such values
    of one type share a literal. */
module Decode {
  import opened Options
  import opened Text
  import opened Values
  import opened Render
  import EitherRender

  /** Consumes the fixed text `p` at the start of `s`. */
  function Expect(s: string, p: string): (r: Option<string>)
    ensures r.Some? ==> |r.value| == |s| - |p|
  {
    if StartsWith(s, p) then Some(s[|p|..]) else None
  }

  lemma ExpectPrefix(p: string, rest: string)
    ensures Expect(p + rest, p) == Some(rest)
  {
    PrefixThen(p, rest);
  }

  lemma EncloseThen(o: string, b: string, c: string, rest: string)
    ensures Enclose(o, b, c) + rest == o + (b + (c + rest))
  {
  }

  /** Index of the first `"` in `s`, or `|s|` when there is none. */
  function QuoteIndex(s: string): (k: nat)
    ensures k <= |s|
  {
    if |s| == 0 || s[0] == '"' then 0 else 1 + QuoteIndex(s[1..])
  }

  predicate NoQuote(s: string)
  {
    forall j :: 0 <= j < |s| ==> s[j] != '"'
  }

  lemma {:induction false} QuoteIndexAfter(s: string, rest: string)
    requires NoQuote(s)
    ensures QuoteIndex(s + "\"" + rest) == |s|
  {
    if |s| > 0 {
      assert (s + "\"" + rest)[1..] == s[1..] + "\"" + rest;
      QuoteIndexAfter(s[1..], rest);
    }
  }

  /** Reads `n` numbers separated by `,`. */
  function ReadNats(n: nat, s: string): (r: Option<(seq<nat>, string)>)
    ensures r.Some? ==> |r.value.0| == n && |r.value.1| <= |s|
  {
    if n == 0 then Some(([], s))
    else
      match ReadNat(s)
      case None => None
      case Some((x, r1)) =>
        if n == 1 then Some(([x], r1))
        else
          match Expect(r1, ",")
          case None => None
          case Some(r2) =>
            match ReadNats(n - 1, r2)
            case None => None
            case Some((xs, r3)) => Some(([x] + xs, r3))
  }

  lemma {:induction false} ReadNatsDecimals(ns: seq<nat>, rest: string)
    requires |rest| == 0 || !IsDigit(rest[0])
    ensures ReadNats(|ns|, Join(Decimals(ns), ",") + rest) == Some((ns, rest))
  {
    if |ns| == 1 {
      ReadNatDecimal(ns[0], rest);
      assert [ns[0]] == ns;
    } else if |ns| > 1 {
      var d := Decimals(ns);
      assert d[1..] == Decimals(ns[1..]);
      var tail := Join(Decimals(ns[1..]), ",") + rest;
      JoinCons(d, ",", rest);
      assert Join(d, ",") + rest == NatToDecimal(ns[0]) + ("," + tail);
      ReadNatsDecimals(ns[1..], rest);
      assert |ns[1..]| == |ns| - 1;
      ReadNatsStep(|ns|, ns[0], ns[1..], tail, rest);
      assert [ns[0]] + ns[1..] == ns;
    } else {
      assert Join(Decimals(ns), ",") + rest == rest;
    }
  }

  lemma ReadNatsStep(n: nat, x: nat, xs: seq<nat>, tail: string, rest: string)
    requires n > 1
    requires ReadNats(n - 1, tail) == Some((xs, rest))
    ensures ReadNats(n, NatToDecimal(x) + ("," + tail)) == Some(([x] + xs, rest))
  {
    ReadNatDecimal(x, "," + tail);
    ExpectPrefix(",", tail);
  }

  /** A join of at least two parts, followed by more text, is its first
      part, the separator, and the join of the others with that text. */
  lemma JoinCons(xs: seq<string>, sep: string, rest: string)
    requires |xs| > 1
    ensures Join(xs, sep) + rest == xs[0] + (sep + (Join(xs[1..], sep) + rest))
  {
  }

  function ParseIpv4(s: string): (r: Option<(Ipv4Addr, string)>)
    ensures r.Some? ==> |r.value.1| < |s|
  {
    match Expect(s, "core::net::Ipv4Addr::new(")
    case None => None
    case Some(r1) =>
      match ReadNats(4, r1)
      case None => None
      case Some((xs, r2)) =>
        match Expect(r2, ")")
        case None => None
        case Some(r3) => Some((Ipv4Addr(xs), r3))
  }

  function ParseIpv6(s: string): (r: Option<(Ipv6Addr, string)>)
    ensures r.Some? ==> |r.value.1| < |s|
  {
    match Expect(s, "core::net::Ipv6Addr::new(")
    case None => None
    case Some(r1) =>
      match ReadNats(8, r1)
      case None => None
      case Some((xs, r2)) =>
        match Expect(r2, ")")
        case None => None
        case Some(r3) => Some((Ipv6Addr(xs), r3))
  }

  /** `core::net::IpAddr::V4(` or `core::net::IpAddr::V6(`, the address
      literal of that family, then `)`. */
  function ParseIp(s: string): (r: Option<(IpAddr, string)>)
    ensures r.Some? ==> |r.value.1| < |s|
  {
    match Expect(s, "core::net::IpAddr::V4(")
    case Some(r0) =>
      (match ParseIpv4(r0)
       case None => None
       case Some((a, r1)) =>
         match Expect(r1, ")")
         case None => None
         case Some(r2) => Some((V4(a), r2)))
    case None =>
      match Expect(s, "core::net::IpAddr::V6(")
      case None => None
      case Some(r0) =>
        match ParseIpv6(r0)
        case None => None
        case Some((a, r1)) =>
          match Expect(r1, ")")
          case None => None
          case Some(r2) => Some((V6(a), r2))
  }

  /** What `SocketAddr::new(ip, port)` builds: a V6 socket address gets flow
      label 0 and scope id 0. */
  function SocketFromParts(ip: IpAddr, port: nat): SocketAddr
  {
    match ip
    case V4(a) => SockV4(SocketAddrV4(a, port))
    case V6(a) => SockV6(SocketAddrV6(a, port, 0, 0))
  }

  function ParseSocket(s: string): (r: Option<(SocketAddr, string)>)
    ensures r.Some? ==> |r.value.1| < |s|
  {
    match Expect(s, "core::net::SocketAddr::new(")
    case None => None
    case Some(r1) =>
      match ParseIp(r1)
      case None => None
      case Some((ip, r2)) =>
        match Expect(r2, ", ")
        case None => None
        case Some(r3) =>
          match ReadNat(r3)
          case None => None
          case Some((port, r4)) =>
            match Expect(r4, ")")
            case None => None
            case Some(r5) => Some((SocketFromParts(ip, port), r5))
  }

  function ParseSocketV4(s: string): (r: Option<(SocketAddrV4, string)>)
    ensures r.Some? ==> |r.value.1| < |s|
  {
    match Expect(s, "core::net::SocketAddrV4::new(")
    case None => None
    case Some(r1) =>
      match ParseIpv4(r1)
      case None => None
      case Some((a, r2)) =>
        match Expect(r2, ", ")
        case None => None
        case Some(r3) =>
          match ReadNat(r3)
          case None => None
          case Some((port, r4)) =>
            match Expect(r4, ")")
            case None => None
            case Some(r5) => Some((SocketAddrV4(a, port), r5))
  }

  /** Reads `, n` three times: port, flow label and scope id. */
  function ReadSocketV6Numbers(s: string): (r: Option<(nat, nat, nat, string)>)
    ensures r.Some? ==> |r.value.3| < |s|
  {
    match Expect(s, ", ")
    case None => None
    case Some(r1) =>
      match ReadNat(r1)
      case None => None
      case Some((port, r2)) =>
        match Expect(r2, ", ")
        case None => None
        case Some(r3) =>
          match ReadNat(r3)
          case None => None
          case Some((flow, r4)) =>
            match Expect(r4, ", ")
            case None => None
            case Some(r5) =>
              match ReadNat(r5)
              case None => None
              case Some((scope, r6)) => Some((port, flow, scope, r6))
  }

  function ParseSocketV6(s: string): (r: Option<(SocketAddrV6, string)>)
    ensures r.Some? ==> |r.value.1| < |s|
  {
    match Expect(s, "core::net::SocketAddrV6::new(")
    case None => None
    case Some(r1) =>
      match ParseIpv6(r1)
      case None => None
      case Some((a, r2)) =>
        match ReadSocketV6Numbers(r2)
        case None => None
        case Some((port, flow, scope, r3)) =>
          match Expect(r3, ")")
          case None => None
          case Some(r4) => Some((SocketAddrV6(a, port, flow, scope), r4))
  }

  function ParseAddress(k: AddrKind, s: string): (r: Option<(Address, string)>)
    ensures r.Some? ==> |r.value.1| < |s|
  {
    match k
    case Ipv4Kind => (match ParseIpv4(s) case None => None case Some((a, r)) => Some((Ipv4(a), r)))
    case Ipv6Kind => (match ParseIpv6(s) case None => None case Some((a, r)) => Some((Ipv6(a), r)))
    case IpKind => (match ParseIp(s) case None => None case Some((a, r)) => Some((Ip(a), r)))
    case SocketKind => (match ParseSocket(s) case None => None case Some((a, r)) => Some((Socket(a), r)))
    case SocketV4Kind => (match ParseSocketV4(s) case None => None case Some((a, r)) => Some((SocketV4(a), r)))
    case SocketV6Kind => (match ParseSocketV6(s) case None => None case Some((a, r)) => Some((SocketV6(a), r)))
  }

  function ParseInt(k: IntKind, s: string): (r: Option<(Val, string)>)
    ensures r.Some? ==> |r.value.1| < |s|
  {
    match ReadInt(s)
    case None => None
    case Some((i, r1)) =>
      match Expect(r1, IntKeyword(k))
      case None => None
      case Some(r2) => Some((IntV(k, i), r2))
  }

  function ParseStr(sk: StrKind, s: string): (r: Option<(Val, string)>)
    ensures r.Some? ==> |r.value.1| < |s|
  {
    if |s| > 0 && s[0] == '"' then
      var k := QuoteIndex(s[1..]);
      if k < |s[1..]| then Some((StrV(sk, s[1..][..k]), s[1..][k + 1..])) else None
    else None
  }

  /** Reads one value of type `t` from the start of `s`; returns it and the
      text after its literal. */
  function ParseVal(t: Ty, s: string): (r: Option<(Val, string)>)
    ensures r.Some? ==> |r.value.1| < |s|
    decreases Size(t), 1, |s|
  {
    match t
    case IntTy(k) => ParseInt(k, s)
    case BoolTy => ParseBool(s)
    case CharTy => ParseChar(s)
    case StrTy(sk) => ParseStr(sk, s)
    case SliceTy(sk, e) => ParseSeq(sk, e, s)
    case ArrayTy(e, n) => ParseArray(e, n, s)
    case OptionTy(p) => ParseOption(p, s)
    case WrapTy(w, x) =>
      (match ParseVal(x, s)
       case None => None
       case Some((y, r1)) => Some((WrapV(w, y), r1)))
    case TupleTy(ts) => ParseTuple(ts, s)
    case AddrTy(k) =>
      (match ParseAddress(k, s)
       case None => None
       case Some((a, r1)) => Some((AddrV(a), r1)))
    case EitherTy(lt, rt) => ParseEither(lt, rt, s)
  }

  function ParseBool(s: string): (r: Option<(Val, string)>)
    ensures r.Some? ==> |r.value.1| < |s|
  {
    if StartsWith(s, "true") then Some((BoolV(true), s[4..]))
    else if StartsWith(s, "false") then Some((BoolV(false), s[5..]))
    else None
  }

  function ParseChar(s: string): (r: Option<(Val, string)>)
    ensures r.Some? ==> |r.value.1| < |s|
  {
    if |s| >= 3 && s[0] == '\'' && s[2] == '\'' then Some((CharV(s[1]), s[3..])) else None
  }

  /** `&[` items `]`. */
  function ParseSeq(sk: SeqKind, e: Ty, s: string): (r: Option<(Val, string)>)
    ensures r.Some? ==> |r.value.1| < |s|
    decreases 1 + Size(e), 0, |s|
  {
    match Expect(s, "&[")
    case None => None
    case Some(r1) =>
      match ParseItems(e, r1)
      case None => None
      case Some((es, r2)) => Some((SeqV(sk, e, es), r2))
  }

  /** `[` items `]`, exactly `n` of them. */
  function ParseArray(e: Ty, n: nat, s: string): (r: Option<(Val, string)>)
    ensures r.Some? ==> |r.value.1| < |s|
    decreases 1 + Size(e), 0, |s|
  {
    match Expect(s, "[")
    case None => None
    case Some(r1) =>
      match ParseItems(e, r1)
      case None => None
      case Some((es, r2)) => if |es| == n then Some((ArrayV(e, es), r2)) else None
  }

  /** `None`, or `Some(` value `)`. */
  function ParseOption(p: Ty, s: string): (r: Option<(Val, string)>)
    ensures r.Some? ==> |r.value.1| < |s|
    decreases 1 + Size(p), 0, |s|
  {
    if StartsWith(s, "None") then Some((NoneV(p), s[4..]))
    else
      match Expect(s, "Some(")
      case None => None
      case Some(r1) =>
        match ParseVal(p, r1)
        case None => None
        case Some((x, r2)) =>
          match Expect(r2, ")")
          case None => None
          case Some(r3) => Some((SomeV(x), r3))
  }

  /** `(` components `)`. */
  function ParseTuple(ts: seq<Ty>, s: string): (r: Option<(Val, string)>)
    ensures r.Some? ==> |r.value.1| < |s|
    decreases 1 + SizeOfAll(ts), 0, |s|
  {
    match Expect(s, "(")
    case None => None
    case Some(r1) =>
      match ParseComps(ts, r1)
      case None => None
      case Some((cs, r2)) =>
        match Expect(r2, ")")
        case None => None
        case Some(r3) => Some((TupleV(cs), r3))
  }

  /** The Left tag, value, `)`; otherwise the Right tag, value, `)`. */
  function ParseEither(lt: Ty, rt: Ty, s: string): (r: Option<(Val, string)>)
    ensures r.Some? ==> |r.value.1| < |s|
    decreases 1 + Size(lt) + Size(rt), 0, |s|
  {
    match Expect(s, EitherRender.EitherPath)
    case None => None
    case Some(r0) =>
      match Expect(r0, "Left(")
      case Some(r1) =>
        (match ParseVal(lt, r1)
         case None => None
         case Some((x, r2)) =>
           match Expect(r2, ")")
           case None => None
           case Some(r3) => Some((LeftV(x, rt), r3)))
      case None =>
        match Expect(r0, "Right(")
        case None => None
        case Some(r1) =>
          match ParseVal(rt, r1)
          case None => None
          case Some((x, r2)) =>
            match Expect(r2, ")")
            case None => None
            case Some(r3) => Some((RightV(lt, x), r3))
  }

  /** Reads the items of a bracketed list after its `[`: `]` at once, or
      items separated by `,` up to and including the closing `]`. */
  function ParseItems(e: Ty, s: string): (r: Option<(seq<Val>, string)>)
    ensures r.Some? ==> |r.value.1| < |s|
    decreases Size(e), 3, |s|
  {
    if StartsWith(s, "]") then Some(([], s[1..])) else ParseItemsFrom(e, s)
  }

  function ParseItemsFrom(e: Ty, s: string): (r: Option<(seq<Val>, string)>)
    ensures r.Some? ==> |r.value.1| < |s|
    decreases Size(e), 2, |s|
  {
    match ParseVal(e, s)
    case None => None
    case Some((x, r1)) =>
      if StartsWith(r1, "]") then Some(([x], r1[1..]))
      else
        match Expect(r1, ",")
        case None => None
        case Some(r2) =>
          match ParseItemsFrom(e, r2)
          case None => None
          case Some((xs, r3)) => Some(([x] + xs, r3))
  }

  /** Reads the components of a tuple, one per component type, separated
      by `,`. */
  function ParseComps(ts: seq<Ty>, s: string): (r: Option<(seq<Val>, string)>)
    ensures r.Some? ==> |r.value.1| <= |s|
    decreases SizeOfAll(ts), 2, |s|
  {
    if |ts| == 0 then Some(([], s))
    else
      match ParseVal(ts[0], s)
      case None => None
      case Some((x, r1)) =>
        if |ts| == 1 then Some(([x], r1))
        else
          match Expect(r1, ",")
          case None => None
          case Some(r2) =>
            match ParseComps(ts[1..], r2)
            case None => None
            case Some((xs, r3)) => Some(([x] + xs, r3))
  }
}

module DecodeFacts {
  import opened Options
  import opened Text
  import opened Values
  import opened Render
  import opened Decode
  import EitherRender

  /** A character that Rust's lexer reads as itself between the double
      quotes of a string literal: not the closing `"`, not the `\` that
      starts an escape, and not a carriage return (a lone one is rejected,
      and `\r\n` is read as a newline alone). */
  predicate StrCharSafe(c: char)
  {
    c != '"' && c != '\\' && c != '\r'
  }

  /** A character that Rust's lexer accepts unescaped between single
      quotes: not `'`, `\`, a newline, a carriage return or a tab. */
  predicate CharSafe(c: char)
  {
    c != '\'' && c != '\\' && c != '\n' && c != '\r' && c != '\t'
  }

  /** The values whose literal carries all of the value, and that Rust reads
      back as that value. Nothing is escaped, so a string may hold none of
      the characters a string literal treats specially, and a `char` none of
      those a character literal does. A V6 `SocketAddr` must have a zero
      flow label and scope id, because `SocketAddr::new` cannot spell them. */
  predicate Recoverable(v: Val)
  {
    match v
    case StrV(_, s) => forall j :: 0 <= j < |s| ==> StrCharSafe(s[j])
    case CharV(c) => CharSafe(c)
    case SeqV(_, _, es) => forall j :: 0 <= j < |es| ==> Recoverable(es[j])
    case ArrayV(_, es) => forall j :: 0 <= j < |es| ==> Recoverable(es[j])
    case SomeV(x) => Recoverable(x)
    case WrapV(_, x) => Recoverable(x)
    case TupleV(cs) => forall j :: 0 <= j < |cs| ==> Recoverable(cs[j])
    case AddrV(Socket(SockV6(x))) => x.flowinfo == 0 && x.scopeId == 0
    case LeftV(l, _) => Recoverable(l)
    case RightV(_, r) => Recoverable(r)
    case _ => true
  }

  lemma RoundTripInt(k: IntKind, i: int, rest: string)
    ensures ParseInt(k, ConstVal(IntV(k, i)) + rest) == Some((IntV(k, i), rest))
  {
    var kw := IntKeyword(k);
    assert ConstVal(IntV(k, i)) + rest == IntToDecimal(i) + (kw + rest);
    ReadIntDecimal(i, kw + rest);
    ExpectPrefix(kw, rest);
  }

  lemma RoundTripStr(sk: StrKind, s: string, rest: string)
    requires NoQuote(s)
    ensures ParseStr(sk, ConstVal(StrV(sk, s)) + rest) == Some((StrV(sk, s), rest))
  {
    var t := ConstVal(StrV(sk, s)) + rest;
    assert t == "\"" + (s + "\"" + rest);
    assert t[1..] == s + "\"" + rest;
    QuoteIndexAfter(s, rest);
    assert t[1..][..|s|] == s;
    assert t[1..][|s| + 1..] == rest;
  }

  lemma RoundTripBool(b: bool, rest: string)
    ensures ParseBool(ConstVal(BoolV(b)) + rest) == Some((BoolV(b), rest))
  {
    if b {
      PrefixThen("true", rest);
    } else {
      PrefixThen("false", rest);
      assert ("false" + rest)[3] == 's';
    }
  }

  lemma RoundTripChar(c: char, rest: string)
    ensures ParseChar(ConstVal(CharV(c)) + rest) == Some((CharV(c), rest))
  {
    var t := ConstVal(CharV(c)) + rest;
    assert t == ['\'', c, '\''] + rest;
    assert t[3..] == rest;
  }

  lemma RoundTripIpv4(a: Ipv4Addr, rest: string)
    requires Ipv4Valid(a)
    ensures ParseIpv4(Ipv4Literal(a) + rest) == Some((a, rest))
  {
    var j := Join(Decimals(a.octets), ",");
    EncloseThen("core::net::Ipv4Addr::new(", j, ")", rest);
    ExpectPrefix("core::net::Ipv4Addr::new(", j + (")" + rest));
    ReadNatsDecimals(a.octets, ")" + rest);
    ExpectPrefix(")", rest);
  }

  lemma RoundTripIpv6(a: Ipv6Addr, rest: string)
    requires Ipv6Valid(a)
    ensures ParseIpv6(Ipv6Literal(a) + rest) == Some((a, rest))
  {
    var j := Join(Decimals(a.segments), ",");
    EncloseThen("core::net::Ipv6Addr::new(", j, ")", rest);
    ExpectPrefix("core::net::Ipv6Addr::new(", j + (")" + rest));
    ReadNatsDecimals(a.segments, ")" + rest);
    ExpectPrefix(")", rest);
  }

  lemma RoundTripIp(ip: IpAddr, rest: string)
    requires IpValid(ip)
    ensures ParseIp(IpLiteral(ip) + rest) == Some((ip, rest))
  {
    match ip
    case V4(a) =>
      var o := "core::net::IpAddr::V4(";
      EncloseThen(o, Ipv4Literal(a), ")", rest);
      ExpectPrefix(o, Ipv4Literal(a) + (")" + rest));
      RoundTripIpv4(a, ")" + rest);
      ExpectPrefix(")", rest);
    case V6(a) =>
      var o := "core::net::IpAddr::V6(";
      EncloseThen(o, Ipv6Literal(a), ")", rest);
      var t := IpLiteral(ip) + rest;
      assert t[20] == '6';
      ExpectPrefix(o, Ipv6Literal(a) + (")" + rest));
      RoundTripIpv6(a, ")" + rest);
      ExpectPrefix(")", rest);
  }

  /** `{ip}, {port}` followed by `)`: the two-argument constructor body. */
  lemma IpPortThen(ipLit: string, port: nat, rest: string)
    ensures Join([ipLit, NatToDecimal(port)], ", ") + (")" + rest) == ipLit + (", " + (NatToDecimal(port) + (")" + rest)))
  {
  }

  lemma RoundTripSocket(sa: SocketAddr, rest: string)
    requires IpValid(SocketIp(sa))
    ensures ParseSocket(SocketLiteral(sa) + rest) == Some((SocketFromParts(SocketIp(sa), SocketPort(sa)), rest))
  {
    var o := "core::net::SocketAddr::new(";
    var ipLit := IpLiteral(SocketIp(sa));
    var port := SocketPort(sa);
    var body := Join([ipLit, NatToDecimal(port)], ", ");
    EncloseThen(o, body, ")", rest);
    ExpectPrefix(o, body + (")" + rest));
    IpPortThen(ipLit, port, rest);
    RoundTripIp(SocketIp(sa), ", " + (NatToDecimal(port) + (")" + rest)));
    ExpectPrefix(", ", NatToDecimal(port) + (")" + rest));
    ReadNatDecimal(port, ")" + rest);
    ExpectPrefix(")", rest);
  }

  lemma RoundTripSocketV4(x: SocketAddrV4, rest: string)
    requires SocketV4Valid(x)
    ensures ParseSocketV4(SocketV4Literal(x) + rest) == Some((x, rest))
  {
    var o := "core::net::SocketAddrV4::new(";
    var ipLit := Ipv4Literal(x.ip4);
    var body := Join([ipLit, NatToDecimal(x.port4)], ", ");
    EncloseThen(o, body, ")", rest);
    ExpectPrefix(o, body + (")" + rest));
    IpPortThen(ipLit, x.port4, rest);
    RoundTripIpv4(x.ip4, ", " + (NatToDecimal(x.port4) + (")" + rest)));
    ExpectPrefix(", ", NatToDecimal(x.port4) + (")" + rest));
    ReadNatDecimal(x.port4, ")" + rest);
    ExpectPrefix(")", rest);
  }

  /** `, {a}, {b}, {c}` followed by more text reads back as the three numbers. */
  lemma ReadSocketV6NumbersDecimals(a: nat, b: nat, c: nat, rest: string)
    requires |rest| == 0 || !IsDigit(rest[0])
    ensures ReadSocketV6Numbers(", " + (NatToDecimal(a) + (", " + (NatToDecimal(b) + (", " + (NatToDecimal(c) + rest))))))
            == Some((a, b, c, rest))
  {
    var tc := NatToDecimal(c) + rest;
    var tb := NatToDecimal(b) + (", " + tc);
    var ta := NatToDecimal(a) + (", " + tb);
    ExpectPrefix(", ", ta);
    ReadNatDecimal(a, ", " + tb);
    ExpectPrefix(", ", tb);
    ReadNatDecimal(b, ", " + tc);
    ExpectPrefix(", ", tc);
    ReadNatDecimal(c, rest);
  }

  lemma SocketV6BodyThen(ipLit: string, a: nat, b: nat, c: nat, rest: string)
    ensures Join([ipLit, NatToDecimal(a), NatToDecimal(b), NatToDecimal(c)], ", ") + rest
            == ipLit + (", " + (NatToDecimal(a) + (", " + (NatToDecimal(b) + (", " + (NatToDecimal(c) + rest))))))
  {
    var da, db, dc := NatToDecimal(a), NatToDecimal(b), NatToDecimal(c);
    var xs := [ipLit, da, db, dc];
    assert xs[1..] == [da, db, dc];
    assert xs[1..][1..] == [db, dc];
    JoinCons(xs, ", ", rest);
    JoinCons(xs[1..], ", ", rest);
    JoinCons(xs[1..][1..], ", ", rest);
    assert Join([dc], ", ") == dc;
  }

  lemma RoundTripSocketV6(x: SocketAddrV6, rest: string)
    requires SocketV6Valid(x)
    ensures ParseSocketV6(SocketV6Literal(x) + rest) == Some((x, rest))
  {
    var o := "core::net::SocketAddrV6::new(";
    var ipLit := Ipv6Literal(x.ip6);
    var body := Join([ipLit, NatToDecimal(x.port6), NatToDecimal(x.flowinfo), NatToDecimal(x.scopeId)], ", ");
    EncloseThen(o, body, ")", rest);
    ExpectPrefix(o, body + (")" + rest));
    SocketV6BodyThen(ipLit, x.port6, x.flowinfo, x.scopeId, ")" + rest);
    var nums := ", " + (NatToDecimal(x.port6) + (", " + (NatToDecimal(x.flowinfo) + (", " + (NatToDecimal(x.scopeId) + (")" + rest))))));
    RoundTripIpv6(x.ip6, nums);
    ReadSocketV6NumbersDecimals(x.port6, x.flowinfo, x.scopeId, ")" + rest);
    ExpectPrefix(")", rest);
  }

  lemma RoundTripAddress(a: Address, rest: string)
    requires AddressValid(a) && Recoverable(AddrV(a))
    ensures ParseAddress(AddrKindOf(a), AddressLiteral(a) + rest) == Some((a, rest))
  {
    match a
    case Ipv4(x) => AddressIpv4(x, rest);
    case Ipv6(x) => AddressIpv6(x, rest);
    case Ip(x) => AddressIp(x, rest);
    case Socket(x) => AddressSocket(x, rest);
    case SocketV4(x) => AddressSocketV4(x, rest);
    case SocketV6(x) => AddressSocketV6(x, rest);
  }

  lemma AddressIpv4(x: Ipv4Addr, rest: string)
    requires Ipv4Valid(x)
    ensures ParseAddress(Ipv4Kind, Ipv4Literal(x) + rest) == Some((Ipv4(x), rest))
  {
    RoundTripIpv4(x, rest);
  }

  lemma AddressIpv6(x: Ipv6Addr, rest: string)
    requires Ipv6Valid(x)
    ensures ParseAddress(Ipv6Kind, Ipv6Literal(x) + rest) == Some((Ipv6(x), rest))
  {
    RoundTripIpv6(x, rest);
  }

  lemma AddressIp(x: IpAddr, rest: string)
    requires IpValid(x)
    ensures ParseAddress(IpKind, IpLiteral(x) + rest) == Some((Ip(x), rest))
  {
    RoundTripIp(x, rest);
  }

  lemma AddressSocket(sa: SocketAddr, rest: string)
    requires AddressValid(Socket(sa)) && Recoverable(AddrV(Socket(sa)))
    ensures ParseAddress(SocketKind, SocketLiteral(sa) + rest) == Some((Socket(sa), rest))
  {
    SocketPartsRebuild(sa);
    RoundTripSocket(sa, rest);
  }

  /** `SocketAddr::new(sa.ip(), sa.port())` is `sa` again, unless `sa` is a
      V6 address with a flow label or scope id. */
  lemma SocketPartsRebuild(sa: SocketAddr)
    requires AddressValid(Socket(sa)) && Recoverable(AddrV(Socket(sa)))
    ensures IpValid(SocketIp(sa)) && SocketFromParts(SocketIp(sa), SocketPort(sa)) == sa
  {
  }

  lemma AddressSocketV4(x: SocketAddrV4, rest: string)
    requires SocketV4Valid(x)
    ensures ParseAddress(SocketV4Kind, SocketV4Literal(x) + rest) == Some((SocketV4(x), rest))
  {
    RoundTripSocketV4(x, rest);
  }

  lemma AddressSocketV6(x: SocketAddrV6, rest: string)
    requires SocketV6Valid(x)
    ensures ParseAddress(SocketV6Kind, SocketV6Literal(x) + rest) == Some((SocketV6(x), rest))
  {
    RoundTripSocketV6(x, rest);
    SocketV6Step(x, SocketV6Literal(x) + rest, rest);
  }

  lemma SocketV6Step(x: SocketAddrV6, s: string, rest: string)
    requires ParseSocketV6(s) == Some((x, rest))
    ensures ParseAddress(SocketV6Kind, s) == Some((SocketV6(x), rest))
  {
  }

  /** One step per literal form: reading the enclosing text, given that the
      parts inside read back. */
  lemma SeqStep(sk: SeqKind, et: Ty, es: seq<Val>, rest: string)
    requires ParseItems(et, Join(ConstVals(es), ",") + ("]" + rest)) == Some((es, rest))
    ensures ParseSeq(sk, et, ConstVal(SeqV(sk, et, es)) + rest) == Some((SeqV(sk, et, es), rest))
  {
    var j := Join(ConstVals(es), ",");
    EncloseThen("&[", j, "]", rest);
    ExpectPrefix("&[", j + ("]" + rest));
  }

  lemma ArrayStep(et: Ty, es: seq<Val>, rest: string)
    requires ParseItems(et, Join(ConstVals(es), ",") + ("]" + rest)) == Some((es, rest))
    ensures ParseArray(et, |es|, ConstVal(ArrayV(et, es)) + rest) == Some((ArrayV(et, es), rest))
  {
    var j := Join(ConstVals(es), ",");
    EncloseThen("[", j, "]", rest);
    ExpectPrefix("[", j + ("]" + rest));
  }

  lemma NoneStep(t: Ty, rest: string)
    ensures ParseOption(t, ConstVal(NoneV(t)) + rest) == Some((NoneV(t), rest))
  {
    PrefixThen("None", rest);
  }

  lemma SomeStep(x: Val, t: Ty, lit: string, rest: string)
    requires ParseVal(t, lit + (")" + rest)) == Some((x, ")" + rest))
    ensures ParseOption(t, "Some(" + (lit + (")" + rest))) == Some((SomeV(x), rest))
  {
    var s := "Some(" + (lit + (")" + rest));
    assert !StartsWith(s, "None") by {
      assert s[0] == 'S';
    }
    ExpectPrefix("Some(", lit + (")" + rest));
    ExpectPrefix(")", rest);
  }

  lemma TupleStep(ts: seq<Ty>, cs: seq<Val>, lits: seq<string>, rest: string)
    requires ParseComps(ts, Join(lits, ",") + (")" + rest)) == Some((cs, ")" + rest))
    ensures ParseTuple(ts, TupleText(lits) + rest) == Some((TupleV(cs), rest))
  {
    var j := Join(lits, ",");
    EncloseThen("(", j, ")", rest);
    ExpectPrefix("(", j + (")" + rest));
    ExpectPrefix(")", rest);
  }

  lemma LeftLiteralThen(lit: string, rest: string)
    ensures EitherRender.LeftLiteral(lit) + rest == EitherRender.LeftTag + (lit + (")" + rest))
  {
  }

  lemma RightLiteralThen(lit: string, rest: string)
    ensures EitherRender.RightLiteral(lit) + rest == EitherRender.RightTag + (lit + (")" + rest))
  {
  }

  lemma LeftStep(x: Val, lt: Ty, rt: Ty, lit: string, rest: string)
    requires ParseVal(lt, lit + (")" + rest)) == Some((x, ")" + rest))
    ensures ParseEither(lt, rt, EitherRender.LeftTag + (lit + (")" + rest))) == Some((LeftV(x, rt), rest))
  {
    var body := lit + (")" + rest);
    TagThen("Left(", body);
    ExpectPrefix(EitherRender.EitherPath, "Left(" + body);
    ExpectPrefix("Left(", body);
    ExpectPrefix(")", rest);
  }

  lemma RightStep(x: Val, lt: Ty, rt: Ty, lit: string, rest: string)
    requires ParseVal(rt, lit + (")" + rest)) == Some((x, ")" + rest))
    ensures ParseEither(lt, rt, EitherRender.RightTag + (lit + (")" + rest))) == Some((RightV(lt, x), rest))
  {
    var body := lit + (")" + rest);
    TagThen("Right(", body);
    ExpectPrefix(EitherRender.EitherPath, "Right(" + body);
    assert Expect("Right(" + body, "Left(") == None by {
      assert ("Right(" + body)[0] == 'R';
    }
    ExpectPrefix("Right(", body);
    ExpectPrefix(")", rest);
  }

  /** A tag followed by text is the shared path, then the variant name and
      its `(`, then that text. */
  lemma TagThen(variant: string, x: string)
    ensures EitherRender.EitherPath + variant + x == EitherRender.EitherPath + (variant + x)
  {
  }

  /** Each form of value, read through `ParseVal` at its own type, given
      that the parts inside read back. */
  lemma IntCase(k: IntKind, i: int, rest: string)
    ensures ParseVal(TypeOf(IntV(k, i)), ConstVal(IntV(k, i)) + rest) == Some((IntV(k, i), rest))
  {
    RoundTripInt(k, i, rest);
  }

  lemma BoolCase(b: bool, rest: string)
    ensures ParseVal(TypeOf(BoolV(b)), ConstVal(BoolV(b)) + rest) == Some((BoolV(b), rest))
  {
    RoundTripBool(b, rest);
  }

  lemma CharCase(c: char, rest: string)
    ensures ParseVal(TypeOf(CharV(c)), ConstVal(CharV(c)) + rest) == Some((CharV(c), rest))
  {
    RoundTripChar(c, rest);
  }

  lemma StrCase(sk: StrKind, s: string, rest: string)
    requires NoQuote(s)
    ensures ParseVal(TypeOf(StrV(sk, s)), ConstVal(StrV(sk, s)) + rest) == Some((StrV(sk, s), rest))
  {
    RoundTripStr(sk, s, rest);
  }

  lemma NoneCase(t: Ty, rest: string)
    ensures ParseVal(TypeOf(NoneV(t)), ConstVal(NoneV(t)) + rest) == Some((NoneV(t), rest))
  {
    NoneStep(t, rest);
  }

  lemma AddrCase(a: Address, rest: string)
    requires AddressValid(a) && Recoverable(AddrV(a))
    ensures ParseVal(TypeOf(AddrV(a)), ConstVal(AddrV(a)) + rest) == Some((AddrV(a), rest))
  {
    RoundTripAddress(a, rest);
    AddrStep(a, AddrKindOf(a), AddressLiteral(a), rest);
  }

  lemma AddrStep(a: Address, k: AddrKind, lit: string, rest: string)
    requires ParseAddress(k, lit + rest) == Some((a, rest))
    ensures ParseVal(AddrTy(k), lit + rest) == Some((AddrV(a), rest))
  {
  }

  lemma SeqCase(sk: SeqKind, et: Ty, es: seq<Val>, rest: string)
    requires ParseItems(et, Join(ConstVals(es), ",") + ("]" + rest)) == Some((es, rest))
    ensures ParseVal(TypeOf(SeqV(sk, et, es)), ConstVal(SeqV(sk, et, es)) + rest) == Some((SeqV(sk, et, es), rest))
  {
    SeqStep(sk, et, es, rest);
  }

  lemma ArrayCase(et: Ty, es: seq<Val>, rest: string)
    requires ParseItems(et, Join(ConstVals(es), ",") + ("]" + rest)) == Some((es, rest))
    ensures ParseVal(TypeOf(ArrayV(et, es)), ConstVal(ArrayV(et, es)) + rest) == Some((ArrayV(et, es), rest))
  {
    ArrayStep(et, es, rest);
  }

  lemma SomeCase(x: Val, rest: string)
    requires ParseVal(TypeOf(x), ConstVal(x) + (")" + rest)) == Some((x, ")" + rest))
    ensures ParseVal(TypeOf(SomeV(x)), ConstVal(SomeV(x)) + rest) == Some((SomeV(x), rest))
  {
    SomeUnfold(x, rest);
    SomeStep(x, TypeOf(x), ConstVal(x), rest);
  }

  lemma SomeUnfold(x: Val, rest: string)
    ensures ParseVal(TypeOf(SomeV(x)), ConstVal(SomeV(x)) + rest)
            == ParseOption(TypeOf(x), "Some(" + (ConstVal(x) + (")" + rest)))
  {
    SomeTextThen(x, rest);
    OptionDispatch(TypeOf(x), ConstVal(SomeV(x)) + rest);
  }

  lemma SomeTextThen(x: Val, rest: string)
    ensures ConstVal(SomeV(x)) + rest == "Some(" + (ConstVal(x) + (")" + rest))
  {
    EncloseThen("Some(", ConstVal(x), ")", rest);
  }

  /** At an `Option` type the reader is the `Option` reader. */
  lemma OptionDispatch(p: Ty, s: string)
    ensures ParseVal(OptionTy(p), s) == ParseOption(p, s)
  {
  }

  lemma WrapCase(w: Wrapper, x: Val, rest: string)
    requires ParseVal(TypeOf(x), ConstVal(x) + rest) == Some((x, rest))
    ensures ParseVal(TypeOf(WrapV(w, x)), ConstVal(WrapV(w, x)) + rest) == Some((WrapV(w, x), rest))
  {
    WrapStep(w, TypeOf(x), x, ConstVal(x) + rest, rest);
  }

  /** A wrapper type reads as the type it wraps. */
  lemma WrapStep(w: Wrapper, t: Ty, x: Val, s: string, rest: string)
    requires ParseVal(t, s) == Some((x, rest))
    ensures ParseVal(WrapTy(w, t), s) == Some((WrapV(w, x), rest))
  {
  }

  lemma TupleCase(cs: seq<Val>, rest: string)
    requires ParseComps(TypesOf(cs), Join(ConstVals(cs), ",") + (")" + rest)) == Some((cs, ")" + rest))
    ensures ParseVal(TypeOf(TupleV(cs)), ConstVal(TupleV(cs)) + rest) == Some((TupleV(cs), rest))
  {
    TupleStep(TypesOf(cs), cs, ConstVals(cs), rest);
    TupleUnfold(cs, rest);
  }

  lemma TupleUnfold(cs: seq<Val>, rest: string)
    ensures ParseVal(TypeOf(TupleV(cs)), ConstVal(TupleV(cs)) + rest)
            == ParseTuple(TypesOf(cs), TupleText(ConstVals(cs)) + rest)
  {
    TupleDispatch(TypesOf(cs), ConstVal(TupleV(cs)) + rest);
  }

  /** At a tuple type the reader is the tuple reader. */
  lemma TupleDispatch(ts: seq<Ty>, s: string)
    ensures ParseVal(TupleTy(ts), s) == ParseTuple(ts, s)
  {
  }

  lemma LeftCase(x: Val, lt: Ty, rt: Ty, lit: string, rest: string)
    requires ParseVal(lt, lit + (")" + rest)) == Some((x, ")" + rest))
    ensures ParseVal(EitherTy(lt, rt), EitherRender.LeftLiteral(lit) + rest) == Some((LeftV(x, rt), rest))
  {
    LeftLiteralThen(lit, rest);
    EitherDispatch(lt, rt, EitherRender.LeftTag + (lit + (")" + rest)));
    LeftStep(x, lt, rt, lit, rest);
  }

  /** At an `Either` type the reader is the `Either` reader. */
  lemma EitherDispatch(lt: Ty, rt: Ty, s: string)
    ensures ParseVal(EitherTy(lt, rt), s) == ParseEither(lt, rt, s)
  {
  }

  lemma RightCase(x: Val, lt: Ty, rt: Ty, lit: string, rest: string)
    requires ParseVal(rt, lit + (")" + rest)) == Some((x, ")" + rest))
    ensures ParseVal(EitherTy(lt, rt), EitherRender.RightLiteral(lit) + rest) == Some((RightV(lt, x), rest))
  {
    RightLiteralThen(lit, rest);
    EitherDispatch(lt, rt, EitherRender.RightTag + (lit + (")" + rest)));
    RightStep(x, lt, rt, lit, rest);
  }

  /** The round trip: the literal of a well-formed, recoverable value,
      followed by any text, reads back as the value and leaves that text. */
  lemma {:induction false} RoundTrip(v: Val, rest: string)
    requires WF(v) && Recoverable(v)
    ensures ParseVal(TypeOf(v), ConstVal(v) + rest) == Some((v, rest))
    decreases v, 2
  {
    match v
    case SeqV(sk, et, es) =>
      RoundTripItems(et, es, rest);
      SeqCase(sk, et, es, rest);
    case ArrayV(et, es) =>
      RoundTripItems(et, es, rest);
      ArrayCase(et, es, rest);
    case SomeV(x) =>
      RoundTrip(x, ")" + rest);
      SomeCase(x, rest);
    case WrapV(w, x) =>
      RoundTrip(x, rest);
      WrapCase(w, x, rest);
    case TupleV(cs) =>
      RoundTripComps(cs, ")" + rest);
      TupleCase(cs, rest);
    case LeftV(l, rt) =>
      RoundTrip(l, ")" + rest);
      LeftCase(l, TypeOf(l), rt, ConstVal(l), rest);
    case RightV(lt, r) =>
      RoundTrip(r, ")" + rest);
      RightCase(r, lt, TypeOf(r), ConstVal(r), rest);
    case IntV(k, i) => IntCase(k, i, rest);
    case BoolV(b) => BoolCase(b, rest);
    case CharV(c) => CharCase(c, rest);
    case StrV(sk, s) => StrCase(sk, s, rest);
    case NoneV(t) => NoneCase(t, rest);
    case AddrV(a) => AddrCase(a, rest);
  }

  /** The items of a list of elements of type `et`, then `]`. */
  lemma {:induction false} RoundTripItems(et: Ty, es: seq<Val>, rest: string)
    requires forall j :: 0 <= j < |es| ==> WF(es[j]) && TypeOf(es[j]) == et && Recoverable(es[j])
    ensures ParseItems(et, Join(ConstVals(es), ",") + ("]" + rest)) == Some((es, rest))
    decreases es, 1
  {
    var s := Join(ConstVals(es), ",") + ("]" + rest);
    if |es| == 0 {
      assert s == "]" + rest;
      PrefixThen("]", rest);
    } else {
      RoundTripItemsFrom(et, es, rest);
      JoinNotClosing(ConstVals(es), "]" + rest);
    }
  }

  /** A non-empty list of literals, none of which starts with `]`, does
      not start with `]` either. */
  lemma JoinNotClosing(lits: seq<string>, rest: string)
    requires |lits| > 0 && |lits[0]| > 0 && lits[0][0] != ']'
    ensures !StartsWith(Join(lits, ",") + rest, "]")
  {
    if |lits| > 1 {
      JoinCons(lits, ",", rest);
    }
    assert (Join(lits, ",") + rest)[0] == lits[0][0];
  }

  lemma {:induction false} RoundTripItemsFrom(et: Ty, es: seq<Val>, rest: string)
    requires |es| > 0
    requires forall j :: 0 <= j < |es| ==> WF(es[j]) && TypeOf(es[j]) == et && Recoverable(es[j])
    ensures ParseItemsFrom(et, Join(ConstVals(es), ",") + ("]" + rest)) == Some((es, rest))
    decreases es, 0
  {
    var lits := ConstVals(es);
    ConstValsSplit(es);
    if |es| == 1 {
      RoundTrip(es[0], "]" + rest);
      ItemsFromOne(et, lits, es, rest);
    } else {
      var tail := Join(lits[1..], ",") + ("]" + rest);
      RoundTrip(es[0], "," + tail);
      RoundTripItemsFrom(et, es[1..], rest);
      ItemsFromCons(et, lits, es, rest);
    }
  }

  /** The literals of a non-empty list: the first one, then those of the rest. */
  lemma ConstValsSplit(vs: seq<Val>)
    requires |vs| > 0
    ensures ConstVals(vs)[0] == ConstVal(vs[0]) && ConstVals(vs)[1..] == ConstVals(vs[1..])
  {
  }

  lemma TypesOfSplit(vs: seq<Val>)
    requires |vs| > 0
    ensures TypesOf(vs)[0] == TypeOf(vs[0]) && TypesOf(vs)[1..] == TypesOf(vs[1..])
  {
  }

  lemma ItemsFromOne(et: Ty, lits: seq<string>, es: seq<Val>, rest: string)
    requires |lits| == |es| == 1
    requires ParseVal(et, lits[0] + ("]" + rest)) == Some((es[0], "]" + rest))
    ensures ParseItemsFrom(et, Join(lits, ",") + ("]" + rest)) == Some((es, rest))
  {
    ItemsLastStep(et, es[0], lits[0], rest);
    assert [es[0]] == es;
  }

  lemma ItemsFromCons(et: Ty, lits: seq<string>, es: seq<Val>, rest: string)
    requires |lits| == |es| > 1
    requires ParseVal(et, lits[0] + ("," + (Join(lits[1..], ",") + ("]" + rest))))
             == Some((es[0], "," + (Join(lits[1..], ",") + ("]" + rest))))
    requires ParseItemsFrom(et, Join(lits[1..], ",") + ("]" + rest)) == Some((es[1..], rest))
    ensures ParseItemsFrom(et, Join(lits, ",") + ("]" + rest)) == Some((es, rest))
  {
    JoinCons(lits, ",", "]" + rest);
    ItemsConsStep(et, es[0], lits[0], Join(lits[1..], ",") + ("]" + rest), es[1..], rest);
    assert [es[0]] + es[1..] == es;
  }

  lemma ItemsLastStep(et: Ty, x: Val, lit: string, rest: string)
    requires ParseVal(et, lit + ("]" + rest)) == Some((x, "]" + rest))
    ensures ParseItemsFrom(et, lit + ("]" + rest)) == Some(([x], rest))
  {
    PrefixThen("]", rest);
  }

  lemma ItemsConsStep(et: Ty, x: Val, lit: string, tail: string, xs: seq<Val>, rest: string)
    requires ParseVal(et, lit + ("," + tail)) == Some((x, "," + tail))
    requires ParseItemsFrom(et, tail) == Some((xs, rest))
    ensures ParseItemsFrom(et, lit + ("," + tail)) == Some(([x] + xs, rest))
  {
    assert !StartsWith("," + tail, "]");
    ExpectPrefix(",", tail);
  }

  /** The components of a tuple, separated by `,`. */
  lemma {:induction false} RoundTripComps(cs: seq<Val>, rest: string)
    requires forall j :: 0 <= j < |cs| ==> WF(cs[j]) && Recoverable(cs[j])
    ensures ParseComps(TypesOf(cs), Join(ConstVals(cs), ",") + rest) == Some((cs, rest))
    decreases cs, 0
  {
    if |cs| == 0 {
      CompsNone(TypesOf(cs), ConstVals(cs), cs, rest);
    } else {
      var lits := ConstVals(cs);
      var ts := TypesOf(cs);
      ConstValsSplit(cs);
      TypesOfSplit(cs);
      if |cs| == 1 {
        RoundTrip(cs[0], rest);
        CompsOne(ts, lits, cs, rest);
      } else {
        var tail := Join(lits[1..], ",") + rest;
        RoundTrip(cs[0], "," + tail);
        RoundTripComps(cs[1..], rest);
        CompsCons(ts, lits, cs, rest);
      }
    }
  }

  lemma CompsNone(ts: seq<Ty>, lits: seq<string>, cs: seq<Val>, rest: string)
    requires |ts| == |lits| == |cs| == 0
    ensures ParseComps(ts, Join(lits, ",") + rest) == Some((cs, rest))
  {
    assert Join(lits, ",") + rest == rest;
  }

  lemma CompsOne(ts: seq<Ty>, lits: seq<string>, cs: seq<Val>, rest: string)
    requires |ts| == |lits| == |cs| == 1
    requires ParseVal(ts[0], lits[0] + rest) == Some((cs[0], rest))
    ensures ParseComps(ts, Join(lits, ",") + rest) == Some((cs, rest))
  {
    CompsLastStep(ts, cs[0], lits[0], rest);
    assert [cs[0]] == cs;
  }

  lemma CompsCons(ts: seq<Ty>, lits: seq<string>, cs: seq<Val>, rest: string)
    requires |ts| == |lits| == |cs| > 1
    requires ParseVal(ts[0], lits[0] + ("," + (Join(lits[1..], ",") + rest)))
             == Some((cs[0], "," + (Join(lits[1..], ",") + rest)))
    requires ParseComps(ts[1..], Join(lits[1..], ",") + rest) == Some((cs[1..], rest))
    ensures ParseComps(ts, Join(lits, ",") + rest) == Some((cs, rest))
  {
    JoinCons(lits, ",", rest);
    CompsConsStep(ts, cs[0], lits[0], Join(lits[1..], ",") + rest, cs[1..], rest);
    assert [cs[0]] + cs[1..] == cs;
  }

  lemma CompsLastStep(ts: seq<Ty>, x: Val, lit: string, rest: string)
    requires |ts| == 1
    requires ParseVal(ts[0], lit + rest) == Some((x, rest))
    ensures ParseComps(ts, lit + rest) == Some(([x], rest))
  {
  }

  lemma CompsConsStep(ts: seq<Ty>, x: Val, lit: string, tail: string, xs: seq<Val>, rest: string)
    requires |ts| > 1
    requires ParseVal(ts[0], lit + ("," + tail)) == Some((x, "," + tail))
    requires ParseComps(ts[1..], tail) == Some((xs, rest))
    ensures ParseComps(ts, lit + ("," + tail)) == Some(([x] + xs, rest))
  {
    ExpectPrefix(",", tail);
  }

  /** Two recoverable values of one type with the same literal are the same
      value. */
  lemma LiteralDeterminesValue(v: Val, w: Val, t: Ty)
    requires HasType(v, t) && HasType(w, t) && Recoverable(v) && Recoverable(w)
    requires ConstVal(v) == ConstVal(w)
    ensures v == w
  {
    RoundTrip(v, "");
    RoundTrip(w, "");
    assert ConstVal(v) + "" == ConstVal(w) + "";
  }
}
