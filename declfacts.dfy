/** What a generated declaration statement promises about the value it
    declares: its layout, the agreement of the `const` and `static` forms,
    and that the initializer reads back as the declared value. */
module DeclarationFacts {
  import opened Options
  import opened Text
  import opened Values
  import opened Declarations
  import opened Render
  import opened Decode
  import opened DecodeFacts

  /** `declaration()` places the head, the keyword, the name, the type
      spelling and the literal in the order of its format string. */
  lemma DeclarationLayout(attrs: string, vis: string, d: DeclarationType, name: string, v: Val)
    ensures Declaration(attrs, vis, d, name, v)
            == DeclHead(attrs, vis) + DeclKeyword(d) + " " + name + ": " + ConstType(TypeOf(v)) + " = " + ConstVal(v) + ";"
  {
    AssembleSpelledOut(attrs, vis, d, name, ConstType(TypeOf(v)), ConstVal(v));
  }

  /** The initializer of a declaration is the value's literal: a reader that
      skips to it recovers exactly the declared value, with only the closing
      `;` left over. */
  lemma DeclarationReadsBack(attrs: string, vis: string, d: DeclarationType, name: string, v: Val)
    requires WF(v) && Recoverable(v)
    ensures var decl := Declaration(attrs, vis, d, name, v);
            var front := DeclHead(attrs, vis) + DeclKeyword(d) + " " + name + ": " + ConstType(TypeOf(v)) + " = ";
            StartsWith(decl, front) && ParseVal(TypeOf(v), decl[|front|..]) == Some((v, ";"))
  {
    var front := DeclHead(attrs, vis) + DeclKeyword(d) + " " + name + ": " + ConstType(TypeOf(v)) + " = ";
    DeclarationLayout(attrs, vis, d, name, v);
    InitializerAfter(front, ConstVal(v));
    RoundTrip(v, ";");
  }

  lemma InitializerAfter(front: string, lit: string)
    ensures var decl := front + lit + ";";
            StartsWith(decl, front) && decl[|front|..] == lit + ";"
  {
    assert front + lit + ";" == front + (lit + ";");
    PrefixThen(front, lit + ";");
  }

  /** `const_declaration()` and `static_declaration()` of one value differ
      only in the keyword. */
  lemma ConstAndStaticDeclarations(attrs: string, vis: string, name: string, v: Val)
    ensures var tail := " " + name + TypedValue(ConstType(TypeOf(v)), ConstVal(v));
            && ConstDeclaration(attrs, vis, name, v) == DeclHead(attrs, vis) + "const" + tail
            && StaticDeclaration(attrs, vis, name, v) == DeclHead(attrs, vis) + "static" + tail
  {
    ConstStaticDifferInKeyword(attrs, vis, name, ConstType(TypeOf(v)), ConstVal(v));
  }

  /** `array_declaration()` has the same layout, with the array path's type
      spelling and literal. */
  lemma ArrayDeclarationLayout(attrs: string, vis: string, d: DeclarationType, name: string, v: Val)
    requires HasArrayPath(TypeOf(v))
    ensures ArrayDeclaration(attrs, vis, d, name, v)
            == DeclHead(attrs, vis) + DeclKeyword(d) + " " + name + ": " + ConstArrayType(v) + " = " + ConstArrayVal(v) + ";"
  {
    AssembleSpelledOut(attrs, vis, d, name, ConstArrayType(v), ConstArrayVal(v));
  }

  /** `const_array_declaration()` and `static_array_declaration()` of one
      value differ only in the keyword. */
  lemma ConstAndStaticArrayDeclarations(attrs: string, vis: string, name: string, v: Val)
    requires HasArrayPath(TypeOf(v))
    ensures var tail := " " + name + TypedValue(ConstArrayType(v), ConstArrayVal(v));
            && ConstArrayDeclaration(attrs, vis, name, v) == DeclHead(attrs, vis) + "const" + tail
            && StaticArrayDeclaration(attrs, vis, name, v) == DeclHead(attrs, vis) + "static" + tail
  {
    ConstStaticDifferInKeyword(attrs, vis, name, ConstArrayType(v), ConstArrayVal(v));
  }
}
