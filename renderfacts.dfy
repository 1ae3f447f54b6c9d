/** What the renderers promise, kind by kind: the suffix of an integer, the
    unescaped string literal and its character-array form, the slice path
    against the fixed-array renderer, wrapper transparency, `Option`, the
    tuple templates, `Either` and the address constructors. */
module RenderFacts {
  import opened Options
  import opened Text
  import opened Values
  import opened Render
  import opened Decode
  import DecodeFacts
  import EitherRender

  // ---------------------------------------------------------------- integers

  /** An integer literal is the decimal text followed by the spelling of its
      own type: reading the number back leaves exactly that spelling. */
  lemma IntLiteralParts(k: IntKind, i: int)
    ensures var lit := ConstVal(IntV(k, i));
            var ty := ConstType(IntTy(k));
            |ty| < |lit| && lit[|lit| - |ty|..] == ty && ReadInt(lit) == Some((i, ty))
  {
    ReadIntDecimal(i, IntKeyword(k));
  }

  lemma IntKeywordInjective(k1: IntKind, k2: IntKind)
    requires IntKeyword(k1) == IntKeyword(k2)
    ensures k1 == k2
  {
    var w := IntKeyword(k1);
    if |w| == 2 {
      assert w[1] == '8';
    } else if |w| == 3 {
      assert w[1..] == "16" || w[1..] == "32" || w[1..] == "64";
    }
  }

  /** Distinct integers, or one integer at two different types, never share
      a literal. */
  lemma IntLiteralInjective(k1: IntKind, i1: int, k2: IntKind, i2: int)
    requires ConstVal(IntV(k1, i1)) == ConstVal(IntV(k2, i2))
    ensures k1 == k2 && i1 == i2
  {
    IntLiteralParts(k1, i1);
    IntLiteralParts(k2, i2);
    IntKeywordInjective(k1, k2);
  }

  // ----------------------------------------------------------------- strings

  /** The three string types share one type spelling and one literal: the
      characters copied between two double quotes, nothing escaped. */
  lemma StrLiteral(sk: StrKind, s: string)
    ensures ConstType(StrTy(sk)) == "&'static str"
    ensures var lit := ConstVal(StrV(sk, s));
            |lit| == |s| + 2 && lit[0] == '"' && lit[|lit| - 1] == '"'
            && forall j :: 0 <= j < |s| ==> lit[j + 1] == s[j]
  {
    var lit := ConstVal(StrV(sk, s));
    assert lit[1..|lit| - 1] == s;
  }

  /** On its own a string literal still determines its string, whatever
      quotes the string holds: only the two outer characters are added. */
  lemma StrLiteralInjective(sk: StrKind, s: string, t: string)
    requires ConstVal(StrV(sk, s)) == ConstVal(StrV(sk, t))
    ensures s == t
  {
  }

  /** Nothing is escaped: the quote character is spelled `'''`, which Rust
      rejects, and the two characters `\` `n` are spelled `"\n"`, which
      Rust reads as a newline. Neither value is `Recoverable`. */
  lemma UnescapedLiterals(sk: StrKind)
    ensures ConstVal(CharV('\'')) == "'''" && !DecodeFacts.Recoverable(CharV('\''))
    ensures ConstVal(StrV(sk, "\\n")) == "\"\\n\"" && !DecodeFacts.Recoverable(StrV(sk, "\\n"))
  {
    assert !DecodeFacts.StrCharSafe("\\n"[0]);
  }

  lemma StrKindsAgree(k1: StrKind, k2: StrKind, s: string)
    ensures ConstType(StrTy(k1)) == ConstType(StrTy(k2))
    ensures ConstVal(StrV(k1, s)) == ConstVal(StrV(k2, s))
    ensures ConstArrayType(StrV(k1, s)) == ConstArrayType(StrV(k2, s))
    ensures ConstArrayVal(StrV(k1, s)) == ConstArrayVal(StrV(k2, s))
  {
  }

  /** A `char` is spelled `'c'`: three characters, the character itself
      between single quotes, so distinct characters have distinct literals. */
  lemma CharLiteral(c: char, d: char)
    ensures ConstType(CharTy) == "char"
    ensures var lit := ConstVal(CharV(c));
            |lit| == 3 && lit[0] == '\'' && lit[1] == c && lit[2] == '\''
    ensures ConstVal(CharV(c)) == ConstVal(CharV(d)) <==> c == d
  {
    var lc := ConstVal(CharV(c));
    var ld := ConstVal(CharV(d));
    assert lc[1] == c && ld[1] == d;
  }

  /** A `bool` is spelled `true` or `false`, as its value says. */
  lemma BoolLiteral(b: bool)
    ensures ConstType(BoolTy) == "bool"
    ensures ConstVal(BoolV(b)) == "true" <==> b
    ensures ConstVal(BoolV(b)) == "false" <==> !b
  {
    assert "true" != "false" by {
      assert |"true"| != |"false"|;
    }
  }

  /** Because nothing is escaped, two different pairs of strings can render
      to one literal: the pair `a` and `b","c` and the pair `a","b` and `c`
      both read `("a","b","c")`. The piece `b`, together with a `","` next
      to it, crosses from the second string to the first. */
  lemma QuotesCollide(a: string, b: string, c: string)
    ensures var v := TupleV([StrV(StrRef, a), StrV(StrRef, b + "\",\"" + c)]);
            var w := TupleV([StrV(StrRef, a + "\",\"" + b), StrV(StrRef, c)]);
            TypeOf(v) == TypeOf(w) && v != w && ConstVal(v) == ConstVal(w)
  {
    var q := "\",\"";
    StrPairTyped(a, b + q + c);
    StrPairTyped(a + q + b, c);
    assert |a| < |a + q + b|;
    PairsRenderAlike(a, b, c);
  }

  lemma PairsRenderAlike(a: string, b: string, c: string)
    ensures ConstVal(TupleV([StrV(StrRef, a), StrV(StrRef, b + "\",\"" + c)]))
         == ConstVal(TupleV([StrV(StrRef, a + "\",\"" + b), StrV(StrRef, c)]))
  {
    var q := "\",\"";
    StrPairLiteral(a, b + q + c);
    StrPairLiteral(a + q + b, c);
    MoveSeparator("(\"", a, q, b, c, "\")");
  }

  lemma MoveSeparator(o: string, a: string, q: string, b: string, c: string, e: string)
    ensures o + a + q + (b + q + c) + e == o + (a + q + b) + q + c + e
  {
    assert a + q + (b + q + c) == (a + q + b) + q + c;
  }

  /** Every pair of string references is a well-formed value of one type. */
  lemma StrPairTyped(a: string, b: string)
    ensures HasType(TupleV([StrV(StrRef, a), StrV(StrRef, b)]), TupleTy([StrTy(StrRef), StrTy(StrRef)]))
  {
    var cs := [StrV(StrRef, a), StrV(StrRef, b)];
    assert TypesOf(cs) == [StrTy(StrRef), StrTy(StrRef)];
  }

  /** A pair of string references renders as its two quoted texts between
      parentheses, separated by a comma. */
  lemma StrPairLiteral(a: string, b: string)
    ensures ConstVal(TupleV([StrV(StrRef, a), StrV(StrRef, b)])) == "(\"" + a + "\",\"" + b + "\")"
  {
    var cs := [StrV(StrRef, a), StrV(StrRef, b)];
    var la := Enclose("\"", a, "\"");
    var lb := Enclose("\"", b, "\"");
    assert ConstVals(cs) == [la, lb] by {
      assert ConstVal(cs[0]) == la && ConstVal(cs[1]) == lb;
    }
    assert Join([la, lb], ",") == la + "," + lb;
  }

  /** The characters of a string, each as a `char` value. */
  function Chars(s: string): (cs: seq<Val>)
    ensures |cs| == |s| && forall j :: 0 <= j < |s| ==> cs[j] == CharV(s[j])
  {
    seq(|s|, j requires 0 <= j < |s| => CharV(s[j]))
  }

  /** The concatenated character items: four characters per character of
      the string, `'c',` at offset `4 * j` for the `j`-th character. */
  lemma {:induction false} CharItemsLayout(s: string)
    ensures |CharItems(s)| == 4 * |s|
    ensures forall j :: 0 <= j < |s| ==> CharItems(s)[4 * j..4 * j + 4] == ['\'', s[j], '\'', ',']
  {
    if |s| > 0 {
      CharItemsLayout(s[1..]);
      var head := CharItem(s[0]);
      var tail := CharItems(s[1..]);
      assert CharItems(s) == head + tail;
      assert head == ['\'', s[0], '\'', ','];
      forall j | 0 <= j < |s|
        ensures CharItems(s)[4 * j..4 * j + 4] == ['\'', s[j], '\'', ',']
      {
        if j > 0 {
          assert CharItems(s)[4 * j..4 * j + 4] == tail[4 * (j - 1)..4 * (j - 1) + 4];
        }
      }
    }
  }

  /** The items are the `char` literals joined by `,` with one more `,`
      after the last one. */
  lemma {:induction false} CharItemsTrailingComma(s: string)
    requires |s| > 0
    ensures CharItems(s) == Join(ConstVals(Chars(s)), ",") + ","
  {
    var lits := ConstVals(Chars(s));
    var items := seq(|lits|, i requires 0 <= i < |lits| => lits[i] + ",");
    ConcatTrailingIsJoin(lits, ",");
    CharItemsIsConcat(s);
    forall i | 0 <= i < |s| ensures items[i] == CharItem(s[i]) {
      CharItemIsLiteralComma(s[i]);
    }
    assert items == seq(|s|, i requires 0 <= i < |s| => CharItem(s[i]));
  }

  /** One item is the `char` literal followed by `,`. */
  lemma CharItemIsLiteralComma(c: char)
    ensures CharItem(c) == ConstVal(CharV(c)) + ","
  {
  }

  lemma {:induction false} CharItemsIsConcat(s: string)
    ensures CharItems(s) == Concat(seq(|s|, i requires 0 <= i < |s| => CharItem(s[i])))
  {
    var xs := seq(|s|, i requires 0 <= i < |s| => CharItem(s[i]));
    if |s| > 0 {
      CharItemsIsConcat(s[1..]);
      assert xs[1..] == seq(|s[1..]|, i requires 0 <= i < |s[1..]| => CharItem(s[1..][i]));
    }
  }

  /** The array path of a string declares `[char; n]` with `n` the number of
      characters, exactly the type of a fixed array of `n` chars, and its
      literal is that array's literal with a trailing comma. */
  lemma StrArrayPath(sk: StrKind, s: string)
    ensures ConstArrayType(StrV(sk, s)) == ConstType(ArrayTy(CharTy, |s|))
    ensures |s| > 0 ==>
              ConstArrayVal(StrV(sk, s)) == Enclose("[", Join(ConstVals(Chars(s)), ",") + ",", "]")
    ensures |s| == 0 ==> ConstArrayVal(StrV(sk, s)) == ConstVal(ArrayV(CharTy, Chars(s)))
  {
    if |s| > 0 {
      CharItemsTrailingComma(s);
    }
  }

  /** Unlike the quoted literal, the character-array literal tells any two
      strings apart, quotes included: each character sits at a fixed
      offset. */
  lemma StrArrayValInjective(sk: StrKind, s: string, t: string)
    requires ConstArrayVal(StrV(sk, s)) == ConstArrayVal(StrV(sk, t))
    ensures s == t
  {
    CharItemsLayout(s);
    CharItemsLayout(t);
    var a := ConstArrayVal(StrV(sk, s));
    assert a[1..|a| - 1] == CharItems(s) == CharItems(t);
    forall j | 0 <= j < |s|
      ensures s[j] == t[j]
    {
      assert CharItems(s)[4 * j..4 * j + 4][1] == s[j];
      assert CharItems(t)[4 * j..4 * j + 4][1] == t[j];
    }
  }

  // --------------------------------------------------------- Vec and slices

  /** `Vec<T>` and `&[T]` render alike. The slice literal is `&` before the
      array-path literal, which is the literal of the fixed array holding the
      same elements; the array-path type is that fixed array's type. */
  lemma SliceArrayPath(sk: SeqKind, et: Ty, es: seq<Val>)
    ensures ConstVal(SeqV(sk, et, es)) == "&" + ConstArrayVal(SeqV(sk, et, es))
    ensures ConstArrayVal(SeqV(sk, et, es)) == ConstVal(ArrayV(et, es))
    ensures ConstArrayType(SeqV(sk, et, es)) == ConstType(ArrayTy(et, |es|))
  {
    var j := Join(ConstVals(es), ",");
    SliceLiteralIs(sk, et, es);
    SliceArrayLiteralIs(sk, et, es);
    ArrayLiteralIs(et, es);
    Ampersand(j);
    SliceArrayTypeIs(sk, et, es);
  }

  lemma SliceLiteralIs(sk: SeqKind, et: Ty, es: seq<Val>)
    ensures ConstVal(SeqV(sk, et, es)) == Enclose("&[", Join(ConstVals(es), ","), "]")
  {
  }

  lemma SliceArrayLiteralIs(sk: SeqKind, et: Ty, es: seq<Val>)
    ensures ConstArrayVal(SeqV(sk, et, es)) == Enclose("[", Join(ConstVals(es), ","), "]")
  {
  }

  lemma ArrayLiteralIs(et: Ty, es: seq<Val>)
    ensures ConstVal(ArrayV(et, es)) == Enclose("[", Join(ConstVals(es), ","), "]")
  {
  }

  lemma SliceArrayTypeIs(sk: SeqKind, et: Ty, es: seq<Val>)
    ensures ConstArrayType(SeqV(sk, et, es)) == ConstType(ArrayTy(et, |es|))
  {
  }

  lemma Ampersand(j: string)
    ensures Enclose("&[", j, "]") == "&" + Enclose("[", j, "]")
  {
  }

  lemma SeqKindsAgree(k1: SeqKind, k2: SeqKind, et: Ty, es: seq<Val>)
    ensures ConstType(SliceTy(k1, et)) == ConstType(SliceTy(k2, et))
    ensures ConstVal(SeqV(k1, et, es)) == ConstVal(SeqV(k2, et, es))
    ensures ConstArrayType(SeqV(k1, et, es)) == ConstArrayType(SeqV(k2, et, es))
  {
  }

  lemma NatToDecimalInjective(n: nat, m: nat)
    requires NatToDecimal(n) == NatToDecimal(m)
    ensures n == m
  {
    IntToDecimalInjective(n, m);
  }

  /** The spelled length of an array type determines the length. */
  lemma ArrayTypeLength(elem: string, n: nat, m: nat)
    requires ArrayTypeText(elem, n) == ArrayTypeText(elem, m)
    ensures n == m
  {
    var a := ArrayTypeText(elem, n);
    var b := ArrayTypeText(elem, m);
    var k := |elem| + 3;
    assert a[k..|a| - 1] == NatToDecimal(n);
    assert b[k..|b| - 1] == NatToDecimal(m);
    NatToDecimalInjective(n, m);
  }

  // ---------------------------------------------------------------- wrappers

  /** `Box`, `Cow`, `Rc` and `Arc` add nothing to the output: the type, the
      literal and the array path are those of the wrapped value. */
  lemma WrapperTransparent(w: Wrapper, x: Val)
    ensures ConstType(TypeOf(WrapV(w, x))) == ConstType(TypeOf(x))
    ensures ConstVal(WrapV(w, x)) == ConstVal(x)
    ensures HasArrayPath(TypeOf(WrapV(w, x))) <==> HasArrayPath(TypeOf(x))
    ensures HasArrayPath(TypeOf(x)) ==>
              ConstArrayType(WrapV(w, x)) == ConstArrayType(x) && ConstArrayVal(WrapV(w, x)) == ConstArrayVal(x)
  {
    WrapTyTransparent(w, TypeOf(x));
  }

  lemma WrapTyTransparent(w: Wrapper, t: Ty)
    ensures ConstType(WrapTy(w, t)) == ConstType(t)
    ensures HasArrayPath(WrapTy(w, t)) <==> HasArrayPath(t)
  {
  }

  /** A type with every wrapper removed, at every depth. */
  function UnwrapTy(t: Ty): (u: Ty)
    ensures !u.WrapTy?
  {
    match t
    case SliceTy(k, e) => SliceTy(k, UnwrapTy(e))
    case ArrayTy(e, n) => ArrayTy(UnwrapTy(e), n)
    case OptionTy(p) => OptionTy(UnwrapTy(p))
    case WrapTy(_, w) => UnwrapTy(w)
    case TupleTy(ts) => TupleTy(UnwrapTys(ts))
    case EitherTy(l, r) => EitherTy(UnwrapTy(l), UnwrapTy(r))
    case _ => t
  }

  function UnwrapTys(ts: seq<Ty>): (us: seq<Ty>)
    ensures |us| == |ts| && forall j :: 0 <= j < |ts| ==> us[j] == UnwrapTy(ts[j])
  {
    if |ts| == 0 then [] else [UnwrapTy(ts[0])] + UnwrapTys(ts[1..])
  }

  /** A value with every wrapper removed, at every depth. */
  function Unwrap(v: Val): (u: Val)
    ensures !u.WrapV?
  {
    match v
    case SeqV(k, et, es) => SeqV(k, UnwrapTy(et), Unwraps(es))
    case ArrayV(et, es) => ArrayV(UnwrapTy(et), Unwraps(es))
    case NoneV(t) => NoneV(UnwrapTy(t))
    case SomeV(x) => SomeV(Unwrap(x))
    case WrapV(_, x) => Unwrap(x)
    case TupleV(cs) => TupleV(Unwraps(cs))
    case LeftV(l, rt) => LeftV(Unwrap(l), UnwrapTy(rt))
    case RightV(lt, r) => RightV(UnwrapTy(lt), Unwrap(r))
    case _ => v
  }

  function Unwraps(vs: seq<Val>): (us: seq<Val>)
    ensures |us| == |vs| && forall j :: 0 <= j < |vs| ==> us[j] == Unwrap(vs[j])
  {
    if |vs| == 0 then [] else [Unwrap(vs[0])] + Unwraps(vs[1..])
  }

  /** Removing every wrapper from a type leaves its spelling unchanged. */
  lemma {:induction false} UnwrapTyKeepsSpelling(t: Ty)
    ensures ConstType(UnwrapTy(t)) == ConstType(t)
  {
    match t
    case SliceTy(_, e) => UnwrapTyKeepsSpelling(e);
    case ArrayTy(e, _) => UnwrapTyKeepsSpelling(e);
    case OptionTy(p) => UnwrapTyKeepsSpelling(p);
    case WrapTy(_, w) => UnwrapTyKeepsSpelling(w);
    case TupleTy(ts) =>
      forall j | 0 <= j < |ts| ensures ConstType(UnwrapTys(ts)[j]) == ConstType(ts[j]) {
        UnwrapTyKeepsSpelling(ts[j]);
      }
      assert ConstTypes(UnwrapTys(ts)) == ConstTypes(ts);
    case EitherTy(l, r) =>
      UnwrapTyKeepsSpelling(l);
      UnwrapTyKeepsSpelling(r);
    case _ =>
  }

  /** Removing every wrapper from a value changes neither its literal nor
      the spelling of its type: wrappers are invisible at any depth. */
  lemma {:induction false} UnwrapKeepsLiteral(v: Val)
    ensures ConstVal(Unwrap(v)) == ConstVal(v)
  {
    match v
    case SeqV(_, _, es) => UnwrapsKeepLiterals(es);
    case ArrayV(_, es) => UnwrapsKeepLiterals(es);
    case SomeV(x) => UnwrapKeepsLiteral(x);
    case WrapV(_, x) => UnwrapKeepsLiteral(x);
    case TupleV(cs) => UnwrapsKeepLiterals(cs);
    case LeftV(l, _) => UnwrapKeepsLiteral(l);
    case RightV(_, r) => UnwrapKeepsLiteral(r);
    case _ =>
  }

  /** The type of the unwrapped value is the unwrapped type. */
  lemma {:induction false} UnwrapTypeOf(v: Val)
    ensures TypeOf(Unwrap(v)) == UnwrapTy(TypeOf(v))
    decreases v, 1
  {
    match v
    case SomeV(x) => UnwrapTypeOf(x);
    case WrapV(_, x) => UnwrapTypeOf(x);
    case TupleV(cs) =>
      UnwrapsTypesOf(cs);
      TupleUnwrapTypes(cs);
    case LeftV(l, _) => UnwrapTypeOf(l);
    case RightV(_, r) => UnwrapTypeOf(r);
    case _ =>
  }

  lemma TupleUnwrapTypes(cs: seq<Val>)
    ensures TypeOf(Unwrap(TupleV(cs))) == TupleTy(TypesOf(Unwraps(cs)))
    ensures UnwrapTy(TypeOf(TupleV(cs))) == TupleTy(UnwrapTys(TypesOf(cs)))
  {
  }

  lemma {:induction false} UnwrapsTypesOf(cs: seq<Val>)
    ensures TypesOf(Unwraps(cs)) == UnwrapTys(TypesOf(cs))
    decreases cs, 0
  {
    forall j | 0 <= j < |cs| ensures TypesOf(Unwraps(cs))[j] == UnwrapTys(TypesOf(cs))[j] {
      UnwrapTypeOf(cs[j]);
    }
  }

  /** Hence the unwrapped value is spelled with the same type. */
  lemma UnwrapKeepsTypeSpelling(v: Val)
    ensures ConstType(TypeOf(Unwrap(v))) == ConstType(TypeOf(v))
  {
    UnwrapTypeOf(v);
    UnwrapTyKeepsSpelling(TypeOf(v));
  }

  lemma {:induction false} UnwrapsKeepLiterals(vs: seq<Val>)
    ensures ConstVals(Unwraps(vs)) == ConstVals(vs)
  {
    forall j | 0 <= j < |vs| ensures ConstVals(Unwraps(vs))[j] == ConstVals(vs)[j] {
      UnwrapKeepsLiteral(vs[j]);
    }
  }

  // ------------------------------------------------------------------ Option

  /** `None` reads the same at every payload type; `Some` wraps the payload's
      literal, which can be cut back out, and never reads as `None`. */
  lemma OptionLiterals(t: Ty, u: Ty, x: Val)
    ensures ConstVal(NoneV(t)) == ConstVal(NoneV(u)) == "None"
    ensures var lit := ConstVal(SomeV(x));
            StartsWith(lit, "Some(") && lit[|lit| - 1] == ')' && lit[5..|lit| - 1] == ConstVal(x)
    ensures ConstVal(SomeV(x)) != ConstVal(NoneV(t))
    ensures ConstType(OptionTy(t)) == Enclose("Option<", ConstType(t), ">")
  {
    var lit := ConstVal(SomeV(x));
    assert lit[1] == 'o' && "None"[1] == 'o';
    assert lit[0] == 'S';
  }

  // ------------------------------------------------------------------ tuples

  /** The `format!` template of the tuple implementation of arity `n`: `()`
      for the unit, otherwise `(` then `n` placeholders `{}` separated by
      `,` then `)`. */
  function TupleTemplate(n: nat): string
  {
    if n == 0 then "()" else "(" + Placeholders(n) + ")"
  }

  function Placeholders(n: nat): string
    requires n > 0
  {
    if n == 1 then "{}" else "{}," + Placeholders(n - 1)
  }

  /** `format!`: substitutes the arguments, in order, for the `{}`
      placeholders of a template. */
  function Format(tpl: string, args: seq<string>): string
    decreases |tpl|
  {
    if |tpl| == 0 then ""
    else if |tpl| >= 2 && tpl[0] == '{' && tpl[1] == '}' && |args| > 0 then args[0] + Format(tpl[2..], args[1..])
    else [tpl[0]] + Format(tpl[1..], args)
  }

  lemma FormatChar(c: char, tpl: string, args: seq<string>)
    requires c != '{'
    ensures Format([c] + tpl, args) == [c] + Format(tpl, args)
  {
    assert ([c] + tpl)[1..] == tpl;
  }

  lemma {:induction false} FormatPlaceholders(args: seq<string>)
    requires |args| > 0
    ensures Format(Placeholders(|args|) + ")", args) == Join(args, ",") + ")"
  {
    var n := |args|;
    if n == 1 {
      var tpl := "{})";
      assert tpl[2..] == ")";
      assert Format(")", args[1..]) == ")";
    } else {
      var rest := Placeholders(n - 1) + ")";
      var tpl := "{}," + rest;
      assert Placeholders(n) + ")" == tpl;
      assert tpl[2..] == [','] + rest;
      FormatChar(',', rest, args[1..]);
      FormatPlaceholders(args[1..]);
    }
  }

  /** A tuple's type, literal and array path are all `TupleText` of the
      components' renderings, in component order; `TupleText` of `n` parts
      is the template of arity `n` filled with those parts. */
  lemma TupleMatchesTemplate(args: seq<string>)
    ensures TupleText(args) == Format(TupleTemplate(|args|), args)
  {
    if |args| == 0 {
      UnitTemplate(args);
      UnitText(args);
    } else {
      NonUnitTemplate(args);
      TupleTextParts(args);
    }
  }

  lemma NonUnitTemplate(args: seq<string>)
    requires |args| > 0
    ensures Format(TupleTemplate(|args|), args) == ['('] + (Join(args, ",") + ")")
  {
    var inner := Placeholders(|args|) + ")";
    assert TupleTemplate(|args|) == ['('] + inner;
    FormatChar('(', inner, args);
    FormatPlaceholders(args);
  }

  lemma TupleTextParts(args: seq<string>)
    ensures TupleText(args) == ['('] + (Join(args, ",") + ")")
  {
  }

  lemma UnitText(args: seq<string>)
    requires |args| == 0
    ensures TupleText(args) == "()"
  {
  }

  lemma UnitTemplate(args: seq<string>)
    requires |args| == 0
    ensures Format(TupleTemplate(0), args) == "()"
  {
    FormatChar(')', "", args);
    assert [')'] + "" == ")";
    FormatChar('(', ")", args);
    assert ['('] + ")" == "()";
  }

  /** The unit tuple renders `()` on both paths. */
  lemma UnitTuple()
    ensures ConstType(TupleTy([])) == "()" && ConstVal(TupleV([])) == "()"
    ensures ConstArrayType(TupleV([])) == "()" && ConstArrayVal(TupleV([])) == "()"
  {
  }

  // ------------------------------------------------------------------ Either

  /** The type of an `Either` names both branch types whichever branch is
      populated. */
  lemma EitherTypeIgnoresBranch(l: Val, r: Val)
    ensures ConstType(TypeOf(LeftV(l, TypeOf(r)))) == ConstType(TypeOf(RightV(TypeOf(l), r)))
            == EitherRender.EitherType(ConstType(TypeOf(l)), ConstType(TypeOf(r)))
  {
    LeftTypeSpelling(l, TypeOf(r));
    RightTypeSpelling(TypeOf(l), r);
  }

  lemma LeftTypeSpelling(l: Val, rt: Ty)
    ensures ConstType(TypeOf(LeftV(l, rt))) == EitherRender.EitherType(ConstType(TypeOf(l)), ConstType(rt))
  {
    EitherTySpelling(TypeOf(l), rt);
  }

  lemma RightTypeSpelling(lt: Ty, r: Val)
    ensures ConstType(TypeOf(RightV(lt, r))) == EitherRender.EitherType(ConstType(lt), ConstType(TypeOf(r)))
  {
    EitherTySpelling(lt, TypeOf(r));
  }

  lemma EitherTySpelling(lt: Ty, rt: Ty)
    ensures ConstType(EitherTy(lt, rt)) == EitherRender.EitherType(ConstType(lt), ConstType(rt))
  {
  }

  /** A Left literal is never a Right literal, and stripping the tag gives
      back the branch value's own literal. */
  lemma EitherBranches(l: Val, rt: Ty, lt: Ty, r: Val)
    ensures ConstVal(LeftV(l, rt)) != ConstVal(RightV(lt, r))
    ensures EitherRender.StripEither(ConstVal(LeftV(l, rt))) == Some(EitherRender.LeftBranch(ConstVal(l)))
    ensures EitherRender.StripEither(ConstVal(RightV(lt, r))) == Some(EitherRender.RightBranch(ConstVal(r)))
  {
    LeftLiteralOf(l, rt);
    RightLiteralOf(lt, r);
    EitherRender.LeftNeverRight(ConstVal(l), ConstVal(r));
    EitherRender.StripLeft(ConstVal(l));
    EitherRender.StripRight(ConstVal(r));
  }

  lemma LeftLiteralOf(l: Val, rt: Ty)
    ensures ConstVal(LeftV(l, rt)) == EitherRender.LeftLiteral(ConstVal(l))
  {
  }

  lemma RightLiteralOf(lt: Ty, r: Val)
    ensures ConstVal(RightV(lt, r)) == EitherRender.RightLiteral(ConstVal(r))
  {
  }

  // --------------------------------------------------------------- addresses

  /** A `SocketAddr` is spelled through `SocketAddr::new(ip, port)`: two V6
      socket addresses with the same address and port share a literal
      whatever their flow labels and scope ids, and otherwise differ. */
  lemma SocketAddrLiteral(x: SocketAddrV6, y: SocketAddrV6)
    requires SocketV6Valid(x) && SocketV6Valid(y)
    ensures ConstVal(AddrV(Socket(SockV6(x)))) == ConstVal(AddrV(Socket(SockV6(y))))
            <==> x.ip6 == y.ip6 && x.port6 == y.port6
  {
    var x0 := SocketAddrV6(x.ip6, x.port6, 0, 0);
    var y0 := SocketAddrV6(y.ip6, y.port6, 0, 0);
    SocketLiteralIgnoresFlow(x);
    SocketLiteralIgnoresFlow(y);
    if ConstVal(AddrV(Socket(SockV6(x)))) == ConstVal(AddrV(Socket(SockV6(y)))) {
      SocketTyped(x0);
      SocketTyped(y0);
      DecodeFacts.LiteralDeterminesValue(AddrV(Socket(SockV6(x0))), AddrV(Socket(SockV6(y0))), AddrTy(SocketKind));
    }
  }

  lemma SocketLiteralIgnoresFlow(x: SocketAddrV6)
    ensures ConstVal(AddrV(Socket(SockV6(x)))) == ConstVal(AddrV(Socket(SockV6(SocketAddrV6(x.ip6, x.port6, 0, 0)))))
  {
  }

  /** `SocketAddrV6` spells all four fields, so its literal tells any two
      such addresses apart. */
  lemma SocketAddrV6Literal(x: SocketAddrV6, y: SocketAddrV6)
    requires SocketV6Valid(x) && SocketV6Valid(y)
    requires ConstVal(AddrV(SocketV6(x))) == ConstVal(AddrV(SocketV6(y)))
    ensures x == y
  {
    SocketV6Typed(x);
    SocketV6Typed(y);
    DecodeFacts.LiteralDeterminesValue(AddrV(SocketV6(x)), AddrV(SocketV6(y)), AddrTy(SocketV6Kind));
  }

  lemma SocketV6Typed(x: SocketAddrV6)
    requires SocketV6Valid(x)
    ensures HasType(AddrV(SocketV6(x)), AddrTy(SocketV6Kind)) && DecodeFacts.Recoverable(AddrV(SocketV6(x)))
  {
  }

  lemma SocketTyped(x: SocketAddrV6)
    requires SocketV6Valid(x) && x.flowinfo == 0 && x.scopeId == 0
    ensures HasType(AddrV(Socket(SockV6(x))), AddrTy(SocketKind)) && DecodeFacts.Recoverable(AddrV(Socket(SockV6(x))))
  {
  }
}
