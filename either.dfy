/** The text templates of the `CompileConst` implementation for
    `either::Either<L, R>`: the type names both branch types, the literal
    tags the populated branch around the branch value's own literal. */
module EitherRender {
  import opened Options
  import opened Text

  /** The path shared by both variants' tags. */
  const EitherPath: string := "::either::Either::"
  const LeftTag: string := EitherPath + "Left("
  const RightTag: string := EitherPath + "Right("

  /** `::either::Either<L,R>`, no space after the comma. */
  function EitherType(l: string, r: string): (t: string)
    ensures StartsWith(t, "::either::Either<") && t[|t| - 1] == '>'
  {
    "::either::Either<" + l + "," + r + ">"
  }

  function LeftLiteral(inner: string): (lit: string)
    ensures StartsWith(lit, LeftTag) && lit[|lit| - 1] == ')'
  {
    LeftTag + inner + ")"
  }

  function RightLiteral(inner: string): (lit: string)
    ensures StartsWith(lit, RightTag) && lit[|lit| - 1] == ')'
  {
    RightTag + inner + ")"
  }

  /** Which branch a rendered `Either` literal holds, and the branch value's
      literal: the tag prefix and the closing parenthesis are stripped. */
  datatype Branch = LeftBranch(leftLit: string) | RightBranch(rightLit: string)

  function StripEither(lit: string): (r: Option<Branch>)
  {
    if |lit| >= |LeftTag| + 1 && StartsWith(lit, LeftTag) && lit[|lit| - 1] == ')' then
      Some(LeftBranch(lit[|LeftTag|..|lit| - 1]))
    else if |lit| >= |RightTag| + 1 && StartsWith(lit, RightTag) && lit[|lit| - 1] == ')' then
      Some(RightBranch(lit[|RightTag|..|lit| - 1]))
    else None
  }

  /** Stripping a Left literal recovers the branch and the inner literal. */
  lemma StripLeft(inner: string)
    ensures StripEither(LeftLiteral(inner)) == Some(LeftBranch(inner))
  {
    var lit := LeftLiteral(inner);
    assert lit[|LeftTag|..|lit| - 1] == inner;
  }

  /** Stripping a Right literal recovers the branch and the inner literal. */
  lemma StripRight(inner: string)
    ensures StripEither(RightLiteral(inner)) == Some(RightBranch(inner))
  {
    var lit := RightLiteral(inner);
    assert !StartsWith(lit, LeftTag) by {
      assert lit[18] == 'R' && LeftTag[18] == 'L';
    }
    assert lit[|RightTag|..|lit| - 1] == inner;
  }

  /** A Left rendering is never a Right rendering, whatever the inner literals. */
  lemma LeftNeverRight(a: string, b: string)
    ensures LeftLiteral(a) != RightLiteral(b)
  {
    StripLeft(a);
    StripRight(b);
  }

  /** The inner literal is determined by the rendering: each branch renders
      distinct inner literals distinctly. */
  lemma LiteralsInjective(a: string, b: string)
    ensures LeftLiteral(a) == LeftLiteral(b) ==> a == b
    ensures RightLiteral(a) == RightLiteral(b) ==> a == b
  {
    StripLeft(a);
    StripLeft(b);
    StripRight(a);
    StripRight(b);
  }
}
