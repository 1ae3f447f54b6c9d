/** Assembly of a declaration statement from a type spelling and a value
    spelling: the format string shared by `declaration` and
    `array_declaration`. */
module Declarations {
  import opened Text

  /** `const` or `static`. */
  datatype DeclarationType = Const | Static

  /** The `Display` text of a declaration type. */
  function DeclKeyword(d: DeclarationType): (r: string)
    ensures r == "const" <==> d == Const
    ensures r == "static" <==> d == Static
  {
    match d
    case Const => "const"
    case Static => "static"
  }

  /** Everything before the keyword: the attributes and a space when they
      are non-empty, then the visibility and a space when it is non-empty. */
  function DeclHead(attrs: string, vis: string): string
  {
    (if attrs == "" then "" else attrs + " ") + (if vis == "" then "" else vis + " ")
  }

  /** `": {ty} = {val};"`: the typed initializer closing every statement. */
  function TypedValue(ty: string, val: string): string
  {
    ": " + ty + " = " + val + ";"
  }

  /** `"{keyword} {name}: {ty} = {val};"`: the statement after the head. */
  function DeclBody(d: DeclarationType, name: string, ty: string, val: string): string
  {
    DeclKeyword(d) + (" " + name + TypedValue(ty, val))
  }

  /** `"{attrs}{sep}{vis}{sep}{keyword} {name}: {ty} = {val};"`: the
      statement opens with the head and closes with the typed initializer. */
  function Assemble(attrs: string, vis: string, d: DeclarationType, name: string, ty: string, val: string): (r: string)
    ensures StartsWith(r, DeclHead(attrs, vis))
    ensures EndsWith(r, TypedValue(ty, val))
  {
    var head := DeclHead(attrs, vis);
    var body := DeclBody(d, name, ty, val);
    PrefixThen(head, body);
    assert head + body == (head + (DeclKeyword(d) + " " + name)) + TypedValue(ty, val);
    SuffixThen(head + (DeclKeyword(d) + " " + name), TypedValue(ty, val));
    head + body
  }

  /** The head agrees with the four pieces of the format string: the
      attributes, a space only when they are non-empty, the visibility, a
      space only when it is non-empty. */
  lemma AssembleLayout(attrs: string, vis: string, d: DeclarationType, name: string, ty: string, val: string)
    ensures Assemble(attrs, vis, d, name, ty, val)
            == (if attrs == "" then "" else attrs) + (if attrs == "" then "" else " ")
               + vis + (if vis == "" then "" else " ") + DeclBody(d, name, ty, val)
  {
    if attrs == "" {
      assert "" + "" + vis == vis;
    } else {
      assert attrs + " " + vis + (if vis == "" then "" else " ") == (attrs + " ") + (if vis == "" then "" else vis + " ");
    }
  }

  /** The statement spelled out piece by piece, in the order of the format
      string. */
  lemma AssembleSpelledOut(attrs: string, vis: string, d: DeclarationType, name: string, ty: string, val: string)
    ensures Assemble(attrs, vis, d, name, ty, val)
            == DeclHead(attrs, vis) + DeclKeyword(d) + " " + name + ": " + ty + " = " + val + ";"
  {
    AssembleLayout(attrs, vis, d, name, ty, val);
  }

  /** The length is exactly the sum of the parts: one space per non-empty
      prefix and seven characters of punctuation. */
  lemma AssembleLength(attrs: string, vis: string, d: DeclarationType, name: string, ty: string, val: string)
    ensures |Assemble(attrs, vis, d, name, ty, val)|
            == |attrs| + |vis| + (if attrs == "" then 0 else 1) + (if vis == "" then 0 else 1)
               + |DeclKeyword(d)| + |name| + |ty| + |val| + 7
  {
  }

  /** A `const` and a `static` statement built from the same parts differ
      only in the keyword. */
  lemma ConstStaticDifferInKeyword(attrs: string, vis: string, name: string, ty: string, val: string)
    ensures var tail := " " + name + TypedValue(ty, val);
            && Assemble(attrs, vis, Const, name, ty, val) == DeclHead(attrs, vis) + "const" + tail
            && Assemble(attrs, vis, Static, name, ty, val) == DeclHead(attrs, vis) + "static" + tail
  {
    AssembleLayout(attrs, vis, Const, name, ty, val);
    AssembleLayout(attrs, vis, Static, name, ty, val);
  }
}
