# const-gen: the literal renderer, modelled in Dafny

const-gen turns a Rust value, seen at build time, into Rust source text:
a type spelling (`const_type`), a literal (`const_val`) and a whole
declaration statement (`declaration`, `const_declaration`,
`static_declaration`). Types that can be spelled as fixed-size arrays also
have an array path (`const_array_type`, `const_array_val`,
`array_declaration`). This project models that rendering protocol for the
types the crate implements:

- the integer types;
- `bool` and `char`;
- the three string types;
- `Vec<T>` and `&[T]`;
- fixed arrays of length 0 to 256;
- `Option<T>`;
- the `Box`/`Cow`/`Rc`/`Arc` wrappers;
- tuples of arity 0 and 2 to 16;
- the six `core::net` address types;
- `either::Either<L, R>`.

The model is pure, as the crate is:

- `Values` holds two datatypes. `Ty` is the static Rust type whose
  implementation is chosen. `Val` is a value of such a type, carrying the
  static type information the value alone does not show: the element type
  of an empty vector, the payload type of `None`, the other branch of an
  `Either`.
- `Render` gives `ConstType`, `ConstVal`, `ConstArrayType` and
  `ConstArrayVal` as one `match` arm per implementing type, standing for
  the trait dispatch.
- `EitherRender` holds the `Either` templates.
- `Declarations` assembles a statement from its parts.
- `Text` holds joins and decimal printing.

`ConstType` takes only a `Ty`. Like the Rust associated function
`const_type()`, it cannot look at a value.

The main theorem is a round trip. `Decode.ParseVal` is a type-directed
reader for the literals `ConstVal` writes. `DecodeFacts.RoundTrip` proves
that the literal of every well-formed value, followed by any text, reads
back as that very value, with that text left over. `ParseVal` takes the
characters as they stand; it is not Rust's lexer. The round trip is
therefore stated only for the values whose literal Rust also reads as the
value (`DecodeFacts.Recoverable`):

- no string of the value holds a `"`, a `\` or a carriage return;
- no `char` of the value is `'`, `\`, a newline, a carriage return or a tab;
- no `SocketAddr` inside it is a V6 address with a flow label or scope id.

From the round trip follow:

- the declared value can be recovered from a declaration statement
  (`DeclarationFacts.DeclarationReadsBack`);
- two values of one type never share a literal
  (`DecodeFacts.LiteralDeterminesValue`).

The excluded values are real behaviour of the crate: for them its output
is rejected by Rust, read back by Rust as another value, or shared by two
values.

- String and `char` literals are written between quotes without escaping.
  The quote character is spelled `'''`, which Rust rejects, and a string
  holding `\` then `n` is spelled `"\n"`, which Rust reads as a newline
  (`RenderFacts.UnescapedLiterals`). The array path of a string writes
  each character as an unescaped `char` item, so a string holding `'`, a
  newline or a tab gets an array literal that Rust rejects, even though its
  quoted literal reads back. Two different pairs of strings can render to
  the same tuple literal (`RenderFacts.QuotesCollide`).
- `SocketAddr` is rendered through `SocketAddr::new(ip, port)`, so its V6
  flow label and scope id are not spelled. The literal depends only on the
  address and the port (`RenderFacts.SocketAddrLiteral`).

The model follows the code in both cases.

## Model

| member | source | states |
|---|---|---|
| Declarations.DeclKeyword | src/lib.rs:90-97 | the `Display` text is `const` exactly for `Const` and `static` exactly for `Static` |
| Declarations.Assemble | src/lib.rs:136-146 | every statement opens with its head (attributes and visibility) and closes with `: {type} = {value};` |
| Declarations.AssembleLayout | src/lib.rs:136-146 | the head matches the four pieces of the format string: the attributes, a space only when they are non-empty, the visibility, a space only when it is non-empty; the keyword, name, type and value follow |
| Declarations.AssembleSpelledOut | src/lib.rs:186-196 | the statement is `head keyword name: type = value;`, piece by piece in the order of the shared format string |
| Declarations.AssembleLength | src/lib.rs:136-146 | the statement's length is the sum of its parts, one space per non-empty prefix and seven punctuation characters; nothing else is added |
| Declarations.ConstStaticDifferInKeyword | src/lib.rs:151-159 | the `const` and `static` statements built from the same parts differ only in the keyword |
| Render.Declaration | src/lib.rs:129-147 | the statement opens with the head and closes with `: `, the `const_type()` of the value's type, ` = `, the `const_val()` of the value and `;` |
| Render.ConstDeclaration | src/lib.rs:151-153 | the keyword right after the head is `const`, and the statement closes with the value's typed literal |
| Render.StaticDeclaration | src/lib.rs:157-159 | the keyword right after the head is `static`, and the statement closes with the value's typed literal |
| Render.ArrayDeclaration | src/lib.rs:179-197 | the statement opens with the head and closes with `: `, the `const_array_type()`, ` = `, the `const_array_val()` and `;` |
| Render.ConstArrayDeclaration | src/lib.rs:200-202 | the keyword right after the head is `const`, and the statement closes with the array path's typed literal |
| Render.StaticArrayDeclaration | src/lib.rs:204-206 | the keyword right after the head is `static`, and the statement closes with the array path's typed literal |
| DeclarationFacts.DeclarationLayout | src/lib.rs:129-147 | `declaration()` places the head, keyword, name, `const_type()` of the value's type and `const_val()` of the value in format order |
| DeclarationFacts.DeclarationReadsBack | src/lib.rs:129-147 | the text after `= ` in a declaration reads back as exactly the declared value, followed by `;` only |
| DeclarationFacts.ConstAndStaticDeclarations | src/lib.rs:151-159 | `const_declaration` and `static_declaration` of one value differ only in the keyword |
| DeclarationFacts.ArrayDeclarationLayout | src/lib.rs:179-197 | `array_declaration()` has the same layout, with the array path's type and literal |
| DeclarationFacts.ConstAndStaticArrayDeclarations | src/lib.rs:200-206 | `const_array_declaration` and `static_array_declaration` differ only in the keyword |
| Render.ConstDefinition | src/lib.rs:167-169 | the definition of a standard-library type is empty, whatever the attributes and visibility |
| Render.IntKeyword | src/lib.rs:215-218 | an integer type spelling is at least two characters and starts with `u` or `i` |
| Render.ConstType | src/lib.rs:105 | every type spelling is non-empty |
| Render.ConstVal | src/lib.rs:107 | every literal is non-empty and never starts with `]`, so a list element is never mistaken for the list's end |
| Render.AddressLiteral | src/lib.rs:410-499 | every address literal starts with the `core::net::` path |
| Render.Ipv4Literal | src/lib.rs:415-424 | the literal is a call of `core::net::Ipv4Addr::new(`, closed by `)` |
| Render.Ipv6Literal | src/lib.rs:432-441 | the literal is a call of `core::net::Ipv6Addr::new(`, closed by `)` |
| Render.IpLiteral | src/lib.rs:449-454 | a V4 address is wrapped in `core::net::IpAddr::V4(` and a V6 one in `core::net::IpAddr::V6(`, closed by `)` |
| Render.SocketLiteral | src/lib.rs:462-468 | the literal is a call of `core::net::SocketAddr::new(`, closed by `)` |
| Render.SocketV4Literal | src/lib.rs:476-482 | the literal is a call of `core::net::SocketAddrV4::new(`, closed by `)` |
| Render.SocketV6Literal | src/lib.rs:490-498 | the literal is a call of `core::net::SocketAddrV6::new(`, closed by `)` |
| Render.ConstTypes | src/lib.rs:549 | one type spelling per component, in component order |
| Render.ConstVals | src/lib.rs:277-281 | one literal per element, in element order |
| Render.ConstArrayType | src/lib.rs:174-175 | every array-path type is bracketed `[...]`, or is a tuple `(...)` of array-path types |
| Render.ConstArrayVal | src/lib.rs:176-177 | every array-path literal is bracketed `[...]`, or is a tuple `(...)` of them; it is never a `&` reference |
| Render.ConstArrayTypes | src/lib.rs:558-562 | one array-path type per tuple component, in component order |
| Render.ConstArrayVals | src/lib.rs:564-568 | one array-path literal per tuple component, in component order |
| Render.CharItems | src/lib.rs:253-256 | the character items are four characters per character of the string |
| RenderFacts.IntLiteralParts | src/lib.rs:220-223 | an integer literal ends with its own type spelling, and reading the decimal prefix gives the number with exactly that spelling left over |
| RenderFacts.IntKeywordInjective | src/lib.rs:227 | the twelve integer type spellings are pairwise distinct |
| RenderFacts.IntLiteralInjective | src/lib.rs:220-223 | two integer literals are equal only for the same number at the same type |
| Text.NatToDecimal | src/lib.rs:420 | the decimal text of a number is non-empty, all digits, and starts with `0` only when it is `0` |
| Text.IntToDecimal | src/lib.rs:222 | the text starts with `-` exactly when the integer is negative, and the rest is the decimal text of its magnitude |
| Text.ReadIntDecimal | src/lib.rs:222 | the decimal text of any integer, before any text that does not start with a digit, reads back as that integer |
| Text.IntToDecimalInjective | src/lib.rs:222 | distinct integers print differently |
| Text.Join | src/lib.rs:277-281 | joining no parts gives the empty text, and joining one part gives that part unchanged |
| Text.JoinLength | src/lib.rs:277-281 | a comma join has the total length of its parts plus one separator between neighbours |
| Text.JoinSnoc | src/lib.rs:277-281 | joining keeps the order of the parts: one more part adds a separator and that part at the end |
| RenderFacts.StrLiteral | src/lib.rs:236-244 | every string type is spelled `&'static str`, and the literal is the characters unchanged between two `"` |
| RenderFacts.StrLiteralInjective | src/lib.rs:241-244 | on its own, a string literal determines its string, even when the string holds `"` |
| RenderFacts.StrKindsAgree | src/lib.rs:261 | `String`, `&str` and `str` share type spelling, literal and both array-path renderings |
| RenderFacts.QuotesCollide | src/lib.rs:241-244 | since nothing is escaped, two distinct pairs of strings of one type can share a tuple literal |
| RenderFacts.StrArrayPath | src/lib.rs:248-256 | the array type is the fixed array `[char; n]` with `n` the character count; the array literal is the `char` literals comma-joined, plus one trailing comma |
| RenderFacts.CharItemsLayout | src/lib.rs:253-256 | the items are four characters per character: `'c',` at offset `4j` for the `j`-th character |
| RenderFacts.StrArrayValInjective | src/lib.rs:253-256 | the character-array literal determines the string, quotes included |
| RenderFacts.CharLiteral | src/lib.rs:343-351 | `char` is spelled `char`; the literal is three characters, the character between single quotes; equal literals iff equal characters |
| RenderFacts.BoolLiteral | src/lib.rs:353-361 | `bool` is spelled `bool`; the literal is `true` iff the value is true and `false` iff it is false |
| RenderFacts.SliceArrayPath | src/lib.rs:275-298 | the `Vec`/slice literal is `&` before its array-path literal; that literal and type are those of the fixed array holding the same elements |
| RenderFacts.SeqKindsAgree | src/lib.rs:303 | `Vec<T>` and `&[T]` share type spelling, literal and array type |
| RenderFacts.ArrayTypeLength | src/lib.rs:508-511 | the spelled array type determines the length |
| RenderFacts.WrapperTransparent | src/lib.rs:312-331 | a wrapper has the type spelling, literal and array path of the wrapped value, and has an array path iff the wrapped value does |
| RenderFacts.UnwrapTyKeepsSpelling | src/lib.rs:312-315 | removing every wrapper from a type, at any depth, leaves its spelling unchanged |
| RenderFacts.UnwrapKeepsLiteral | src/lib.rs:316-319 | removing every wrapper from a value, at any depth, leaves its literal unchanged |
| RenderFacts.UnwrapTypeOf | src/lib.rs:312-319 | the type of the unwrapped value is the unwrapped type |
| RenderFacts.UnwrapKeepsTypeSpelling | src/lib.rs:312-315 | the unwrapped value's type is spelled as the original's |
| RenderFacts.OptionLiterals | src/lib.rs:363-374 | `None` reads the same at every payload type; `Some(x)` is `Some(` + x's literal + `)`, which can be cut back out, and is never `None`; the type is `Option<...>` around the payload's spelling |
| RenderFacts.TupleMatchesTemplate | src/lib.rs:573-588 | the shared tuple text of `n` parts is the format template of arity `n` with the parts substituted in order |
| RenderFacts.FormatPlaceholders | src/lib.rs:574-588 | filling `{},...,{})` with the arguments gives their comma join followed by `)` |
| RenderFacts.UnitTuple | src/lib.rs:573 | the unit tuple renders `()` on all four paths |
| RenderFacts.EitherTypeIgnoresBranch | src/either.rs:12-14 | the `Either` type spelling names both branch types, whichever branch is populated |
| RenderFacts.EitherBranches | src/either.rs:16-20 | a `Left` literal is never a `Right` literal, and stripping the tag gives back the branch value's literal |
| EitherRender.LeftLiteral | src/either.rs:18 | the literal starts with the `::either::Either::Left(` tag and ends with `)` |
| EitherRender.RightLiteral | src/either.rs:19 | the literal starts with the `::either::Either::Right(` tag and ends with `)` |
| EitherRender.EitherType | src/either.rs:12-14 | the spelling starts with `::either::Either<` and ends with `>` |
| EitherRender.StripLeft | src/either.rs:18 | stripping a `Left` literal recovers the branch and the inner literal |
| EitherRender.StripRight | src/either.rs:19 | stripping a `Right` literal recovers the branch and the inner literal |
| EitherRender.LeftNeverRight | src/either.rs:17-20 | no `Left` rendering equals any `Right` rendering |
| EitherRender.LiteralsInjective | src/either.rs:17-20 | each branch renders distinct inner literals distinctly |
| RenderFacts.SocketAddrLiteral | src/lib.rs:462-468 | two V6 `SocketAddr` literals are equal iff the addresses and ports are equal, whatever the flow labels and scope ids |
| RenderFacts.SocketAddrV6Literal | src/lib.rs:490-498 | the `SocketAddrV6` literal spells all four fields, so it determines the address |
| DecodeFacts.RoundTripIpv4 | src/lib.rs:415-424 | an `Ipv4Addr` literal reads back as the four octets |
| DecodeFacts.RoundTripIpv6 | src/lib.rs:432-441 | an `Ipv6Addr` literal reads back as the eight segments |
| DecodeFacts.RoundTripIp | src/lib.rs:449-454 | an `IpAddr` literal reads back as the same family and address |
| DecodeFacts.RoundTripSocket | src/lib.rs:462-468 | a `SocketAddr` literal reads back as `SocketAddr::new(ip, port)` of the address |
| DecodeFacts.RoundTripSocketV4 | src/lib.rs:476-482 | a `SocketAddrV4` literal reads back as the address and port |
| DecodeFacts.RoundTripSocketV6 | src/lib.rs:490-498 | a `SocketAddrV6` literal reads back as all four fields |
| DecodeFacts.RoundTripAddress | src/lib.rs:410-499 | every valid address literal reads back as the address, the V6 `SocketAddr` with a flow label or scope id excepted |
| DecodeFacts.RoundTripInt | src/lib.rs:220-223 | an integer literal reads back as the number at its type |
| DecodeFacts.RoundTripStr | src/lib.rs:241-244 | the model's reader reads a string literal without `"` inside back as the string |
| RenderFacts.UnescapedLiterals | src/lib.rs:241-244 | nothing is escaped: the quote `char` is spelled `'''` and the string `\n` (backslash, `n`) is spelled `"\n"`, and neither value is `Recoverable` |
| DecodeFacts.RoundTripBool | src/lib.rs:358-360 | a `bool` literal reads back as the value |
| DecodeFacts.RoundTripChar | src/lib.rs:348-350 | the model's reader takes the character between the quotes as it stands, so it reads every `char` literal back as its character; Rust's lexer does so only for the characters `Recoverable` admits |
| DecodeFacts.RoundTrip | src/lib.rs:106-107 | the literal of any well-formed, recoverable value, before any text, reads back at the value's type as exactly that value, leaving that text |
| DecodeFacts.RoundTripItems | src/lib.rs:277-281 | the comma-joined element literals of a `Vec`, slice or array, then `]`, read back as the elements in order |
| DecodeFacts.RoundTripComps | src/lib.rs:554 | the comma-joined component literals of a tuple read back as the components, each at its own type |
| DecodeFacts.LiteralDeterminesValue | src/lib.rs:106-107 | two recoverable values of one type with the same literal are equal |
| Values.TypeOfWellFormed | src/lib.rs:524-588 | a well-formed value has an implemented type: no tuple arity or array length outside those the crate implements |

## Left out

- Macros: the `const_declaration!`, `const_array_declaration!` and
  `const_definition!` macros (src/lib.rs:28-81) only forward to the trait
  methods modelled here.
- Derive: the derive crate for user structs and enums is not part of this
  model.
- `f32` and `f64` (src/lib.rs:227) are left out, because floating-point
  `Display` is not modelled.
- The `phf` maps and sets (src/lib.rs:376-408) are left out. They
  depend on hash-map iteration order, which is not modelled.
- The `no_std` variant is not part of this model.
- `usize` and `isize` are taken as 64 bits wide. Their real width depends
  on the target platform.
- The doc example at src/lib.rs:118-127 shows a `&str` type spelling. The
  code at src/lib.rs:238 writes `&'static str`, and the model follows the
  code.
- `Decode.ParseVal` reads literal characters as they stand. It is a reader
  for the text `ConstVal` writes, not the Rust lexer, so Rust escape rules
  are not modelled. `DecodeFacts.Recoverable` stands in for them: it
  excludes every character that Rust's lexer would reject or read as
  something else in the crate's unescaped literals.
- The `Clone` bound on the `Cow` wrapper is a compile-time constraint. It
  does not change the output, so it is not modelled.
- DecodeFacts.RoundTrip: its precondition excludes strings holding `"`,
  `\` or a carriage return, the `char`s `'`, `\`, newline, carriage return
  and tab, and V6 `SocketAddr` values with a flow label or scope id. For
  the characters, the crate's literal is rejected by Rust or read by Rust as
  another value (`RenderFacts.UnescapedLiterals`). A lone string
  literal still determines its string (`RenderFacts.StrLiteralInjective`).
  Inside a composite literal, though, a `"` in one string can move the
  boundary to the next element, so two values share a literal
  (`RenderFacts.QuotesCollide`). A V6 `SocketAddr` literal does not spell
  the flow label and scope id at all (`RenderFacts.SocketAddrLiteral`).
- `Values.WFTy` admits the unsized `str` (`StrSlice`) inside other types:
  as the element of `Vec`, a slice or an array, the payload of `Option`, a
  wrapper's content, a tuple component or an `Either` branch. The crate's
  generic implementations carry Rust's implicit `Sized` bound, so the
  compiler rejects `Vec<str>`, `Option<str>` or `Box<str>`. The model only
  admits more types than Rust does; a `str` there renders like `&str`, and
  no proved property depends on the difference.
