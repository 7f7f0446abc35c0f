/** The six error kinds (`error_kinds` in src/errors/mod.rs): each value
    object, its checked constructor and its rendering.

    Constructors return `None` where the Rust `new` panics. The renderings
    of the four index-based kinds require the kind's `Valid`; the two
    substring renderings have no precondition. For four kinds the source
    constructor establishes `Valid`. For `ExpectedIdentifier` and
    `ExpectedToken` it is the corrected invariant (a character start): the
    source constructors only check `index < line.len()`, and on the values
    they build, `Valid` holds exactly when the source rendering does not
    panic. Index-based renderings splice the marker `{here}` into the
    line at the stored BYTE offset; substring-based ones quote the offending
    text and the whole line. */
module ErrorKinds {
  import opened Wrappers
  import opened Utf8
  import opened Position
  import opened Search

  /** The insertion marker spliced into the line. */
  const Here: string := "{here}"

  datatype ExpectedIdentifier = ExpectedIdentifier(index: nat, line: string)
  {
    ghost predicate Valid() { IsCharStart(line, index) }
  }

  datatype ExpectedToken = ExpectedToken(index: nat, line: string, tokens: string)
  {
    ghost predicate Valid() { IsCharStart(line, index) }
  }

  datatype ExpectedEscape = ExpectedEscape(index: nat, line: string, replace: string, token: char)
  {
    /** `token` is the character whose encoding starts at `index`. */
    ghost predicate Valid()
    {
      && IsCharStart(line, index)
      && forall k :: 0 <= k < |line| && Offset(line, k) == index ==> line[k] == token
    }
  }

  datatype UnexpectedToken = UnexpectedToken(index: nat, line: string, token: char)
  {
    ghost predicate Valid()
    {
      && IsCharStart(line, index)
      && forall k :: 0 <= k < |line| && Offset(line, k) == index ==> line[k] == token
    }
  }

  datatype InvalidEscape = InvalidEscape(line: string, escape: string)
  {
    ghost predicate Valid() { Occurs(escape, line) }
  }

  datatype InvalidIdentifier = InvalidIdentifier(line: string, ident: string)
  {
    /** The part of the invariant that does not depend on the external
        identifier rule. */
    ghost predicate Valid() { Occurs(ident, line) }

    ghost predicate ValidUnder(isValid: string -> bool) { Valid() && !isValid(ident) }
  }

  // ---------------------------------------------------------------------
  // ExpectedIdentifier

  /** `ExpectedIdentifier::new` exactly as written: it asserts only that
      `index` is below the byte length of `line`. */
  function NewExpectedIdentifierAsWritten(line: string, index: nat): (r: Option<ExpectedIdentifier>)
    ensures r.Some? <==> index < ByteLen(line)
    ensures r.Some? ==> r.value.line == line && r.value.index == index
  {
    if ByteLen(line) > index then Some(ExpectedIdentifier(index, line)) else None
  }

  /** The `Display` of `ExpectedIdentifier` as written, on any stored
      value: `None` is the panic of the byte slices `&line[..index]` and
      `&line[index..]`. */
  function DisplayExpectedIdentifierAsWritten(e: ExpectedIdentifier): (r: Option<string>)
    ensures r.Some? <==> IsBoundary(e.line, e.index)
  {
    match (SliceTo(e.line, e.index), SliceFrom(e.line, e.index))
    case (Some(before), Some(after)) => Some("Expected identifier " + before + Here + after)
    case _ => None
  }

  /** The constructor accepts an offset inside a multi-byte character,
      and rendering the value it returns then panics: "é" is two bytes
      long, so offset 1 passes `1 < 2` but is not a character boundary. */
  lemma ExpectedIdentifierAcceptsSplitCharacter()
    ensures NewExpectedIdentifierAsWritten("\U{E9}", 1).Some?
    ensures DisplayExpectedIdentifierAsWritten(NewExpectedIdentifierAsWritten("\U{E9}", 1).value).None?
  {
    NoBoundaryInsideFirst("\U{E9}", 1);
  }

  /** For every value the source constructor builds, its rendering
      succeeds exactly when `index` is a character start, i.e. exactly when
      the corrected invariant holds. */
  lemma ExpectedIdentifierAsWrittenRenders(line: string, index: nat)
    requires NewExpectedIdentifierAsWritten(line, index).Some?
    ensures DisplayExpectedIdentifierAsWritten(NewExpectedIdentifierAsWritten(line, index).value).Some?
      <==> IsCharStart(line, index)
    ensures NewExpectedIdentifierAsWritten(line, index).value.Valid() <==> IsCharStart(line, index)
  {
    CharStartIsInnerBoundary(line, index);
  }

  /** `ExpectedIdentifier::new` with the guard its rendering needs: besides
      `index < line.len()`, `line.is_char_boundary(index)`. */
  function NewExpectedIdentifier(line: string, index: nat): (r: Option<ExpectedIdentifier>)
    ensures r.Some? <==> IsCharStart(line, index)
    ensures r.Some? ==> r.value.Valid() && r.value.line == line && r.value.index == index
  {
    CharStartIsInnerBoundary(line, index);
    if ByteLen(line) > index && IsCharBoundary(line, index) then Some(ExpectedIdentifier(index, line)) else None
  }

  /** `Expected identifier <line[..index]>{here}<line[index..]>`: the
      marker sits before the character that starts at byte `index`, and
      the line is otherwise reproduced unchanged. */
  function DisplayExpectedIdentifier(e: ExpectedIdentifier): (r: string)
    requires e.Valid()
    ensures forall k :: 0 <= k <= |e.line| && Offset(e.line, k) == e.index ==>
      r == "Expected identifier " + e.line[..k] + Here + e.line[k..]
  {
    CharStartIsInnerBoundary(e.line, e.index);
    SlicesAtAll(e.line, e.index);
    "Expected identifier " + SliceTo(e.line, e.index).value + Here + SliceFrom(e.line, e.index).value
  }

  /** With the corrected constructor, the source's rendering never panics
      and agrees with the model's. */
  lemma ExpectedIdentifierDisplayNeverPanics(e: ExpectedIdentifier)
    requires e.Valid()
    ensures DisplayExpectedIdentifierAsWritten(e) == Some(DisplayExpectedIdentifier(e))
  {
    CharStartIsInnerBoundary(e.line, e.index);
  }

  // ---------------------------------------------------------------------
  // ExpectedToken

  /** `ExpectedToken::new` exactly as written: only `index < line.len()`. */
  function NewExpectedTokenAsWritten(line: string, index: nat, tokens: string): (r: Option<ExpectedToken>)
    ensures r.Some? <==> index < ByteLen(line)
    ensures r.Some? ==> r.value.line == line && r.value.index == index && r.value.tokens == tokens
  {
    if ByteLen(line) > index then Some(ExpectedToken(index, line, tokens)) else None
  }

  /** The `Display` of `ExpectedToken` as written, on any stored value. */
  function DisplayExpectedTokenAsWritten(e: ExpectedToken): (r: Option<string>)
    ensures r.Some? <==> IsBoundary(e.line, e.index)
  {
    match (SliceTo(e.line, e.index), SliceFrom(e.line, e.index))
    case (Some(before), Some(after)) => Some("Expected " + e.tokens + " " + before + Here + after)
    case _ => None
  }

  /** The same defect as for `ExpectedIdentifier`: offset 1 of "é". */
  lemma ExpectedTokenAcceptsSplitCharacter()
    ensures NewExpectedTokenAsWritten("\U{E9}", 1, "'='").Some?
    ensures DisplayExpectedTokenAsWritten(NewExpectedTokenAsWritten("\U{E9}", 1, "'='").value).None?
  {
    NoBoundaryInsideFirst("\U{E9}", 1);
  }

  /** For every value the source constructor builds, its rendering
      succeeds exactly when `index` is a character start. */
  lemma ExpectedTokenAsWrittenRenders(line: string, index: nat, tokens: string)
    requires NewExpectedTokenAsWritten(line, index, tokens).Some?
    ensures DisplayExpectedTokenAsWritten(NewExpectedTokenAsWritten(line, index, tokens).value).Some?
      <==> IsCharStart(line, index)
    ensures NewExpectedTokenAsWritten(line, index, tokens).value.Valid() <==> IsCharStart(line, index)
  {
    CharStartIsInnerBoundary(line, index);
  }

  /** `ExpectedToken::new` with the character-boundary guard added. */
  function NewExpectedToken(line: string, index: nat, tokens: string): (r: Option<ExpectedToken>)
    ensures r.Some? <==> IsCharStart(line, index)
    ensures r.Some? ==> r.value.Valid() && r.value.line == line && r.value.index == index && r.value.tokens == tokens
  {
    CharStartIsInnerBoundary(line, index);
    if ByteLen(line) > index && IsCharBoundary(line, index) then Some(ExpectedToken(index, line, tokens)) else None
  }

  /** `Expected <tokens> <line[..index]>{here}<line[index..]>`, with
      `tokens` copied verbatim. */
  function DisplayExpectedToken(e: ExpectedToken): (r: string)
    requires e.Valid()
    ensures forall k :: 0 <= k <= |e.line| && Offset(e.line, k) == e.index ==>
      r == "Expected " + e.tokens + " " + e.line[..k] + Here + e.line[k..]
  {
    CharStartIsInnerBoundary(e.line, e.index);
    SlicesAtAll(e.line, e.index);
    "Expected " + e.tokens + " " + SliceTo(e.line, e.index).value + Here + SliceFrom(e.line, e.index).value
  }

  lemma ExpectedTokenDisplayNeverPanics(e: ExpectedToken)
    requires e.Valid()
    ensures DisplayExpectedTokenAsWritten(e) == Some(DisplayExpectedToken(e))
  {
    CharStartIsInnerBoundary(e.line, e.index);
  }

  /** `ExpectedToken::new("let x = 5", 4, "'='")` renders
      `Expected '=' let {here}x = 5`. */
  lemma ExpectedTokenExample()
    ensures NewExpectedToken("let x = 5", 4, "'='").Some?
    ensures DisplayExpectedToken(NewExpectedToken("let x = 5", 4, "'='").value) == "Expected '=' let {here}x = 5"
  {
    var line := "let x = 5";
    assert line[..4] == "let ";
    assert ByteLen("let ") == 4 by {
      assert ByteLen(" ") == 1;
      assert ByteLen("t ") == 2;
      assert ByteLen("et ") == 3;
    }
    assert Offset(line, 4) == 4;
    var e := ExpectedToken(4, line, "'='");
    assert e.Valid();
    assert NewExpectedToken(line, 4, "'='") == Some(e);
    var text := DisplayExpectedToken(e);
    var before, after := line[..4], line[4..];
    assert before == "let " && after == "x = 5";
    assert text == "Expected " + "'='" + " " + before + Here + after;
    assert text == "Expected " + "'='" + " " + "let " + "{here}" + "x = 5";
    JoinLiterals(text);
  }

  /** Proof step for `ExpectedTokenExample` only: joins the pieces of the
      rendering into the single expected literal, which is cheap to prove
      in isolation. */
  lemma JoinLiterals(t: string)
    requires t == "Expected " + "'='" + " " + "let " + "{here}" + "x = 5"
    ensures t == "Expected '=' let {here}x = 5"
  {
  }

  // ---------------------------------------------------------------------
  // ExpectedEscape

  /** `ExpectedEscape::new`: the token is `nth_char(&line, index)`, so the
      constructor succeeds exactly when `nth_char` does. */
  method NewExpectedEscape(line: string, index: nat, replace: string) returns (r: Option<ExpectedEscape>)
    ensures r.Some? <==> IsCharStart(line, index)
    ensures r.Some? ==> r.value.Valid()
    ensures r.Some? ==> r.value.line == line && r.value.index == index && r.value.replace == replace
  {
    var c := NthChar(line, index);
    match c
    case Returned(token) =>
      r := Some(ExpectedEscape(index, line, replace, token));
    case Panicked(_) =>
      r := None;
  }

  /** The offset just past the token is a boundary, so the suffix slice
      `&line[index + token.len_utf8()..]` never panics. */
  lemma AfterTokenIsBoundary(line: string, index: nat, token: char)
    requires IsCharStart(line, index)
    requires forall k :: 0 <= k < |line| && Offset(line, k) == index ==> line[k] == token
    ensures IsBoundary(line, index + Utf8Len(token))
    ensures IsBoundary(line, index)
  {
    var k :| 0 <= k < |line| && Offset(line, k) == index;
    OffsetStep(line, k);
    assert Offset(line, k + 1) == index + Utf8Len(token);
  }

  /** `Expected escape sequence <replace> instead of <token> in
      <line[..index]>{here}<line[index + len_utf8(token)..]>`: the marker
      takes the place of exactly the offending character. */
  function DisplayExpectedEscape(e: ExpectedEscape): (r: string)
    requires e.Valid()
    ensures forall k :: 0 <= k < |e.line| && Offset(e.line, k) == e.index ==>
      && e.line[..k] + [e.token] + e.line[k + 1..] == e.line
      && r == "Expected escape sequence " + e.replace + " instead of " + [e.token] + " in "
              + e.line[..k] + Here + e.line[k + 1..]
  {
    AfterTokenIsBoundary(e.line, e.index, e.token);
    SlicesAtAll(e.line, e.index);
    AfterTokenSlice(e);
    "Expected escape sequence " + e.replace + " instead of " + [e.token] + " in "
      + SliceTo(e.line, e.index).value + Here + SliceFrom(e.line, e.index + Utf8Len(e.token)).value
  }

  lemma AfterTokenSlice(e: ExpectedEscape)
    requires e.Valid()
    ensures forall k :: 0 <= k < |e.line| && Offset(e.line, k) == e.index ==>
      SliceFrom(e.line, e.index + Utf8Len(e.token)) == Some(e.line[k + 1..])
      && e.line[..k] + [e.token] + e.line[k + 1..] == e.line
  {
    forall k | 0 <= k < |e.line| && Offset(e.line, k) == e.index
      ensures SliceFrom(e.line, e.index + Utf8Len(e.token)) == Some(e.line[k + 1..])
      ensures e.line[..k] + [e.token] + e.line[k + 1..] == e.line
    {
      AfterTokenAt(e.line, e.index, e.token, k);
    }
  }

  /** Byte `index + len_utf8(token)` is where character `k + 1` starts. */
  lemma AfterTokenAt(line: string, index: nat, token: char, k: nat)
    requires k < |line| && Offset(line, k) == index && line[k] == token
    ensures SliceFrom(line, index + Utf8Len(token)) == Some(line[k + 1..])
    ensures line[..k] + [token] + line[k + 1..] == line
  {
    OffsetStep(line, k);
    SlicesAt(line, index + Utf8Len(token), k + 1);
    assert line[..k + 1] == line[..k] + [token];
    assert line[..k + 1] + line[k + 1..] == line;
  }

  // ---------------------------------------------------------------------
  // UnexpectedToken

  /** `UnexpectedToken::new`: succeeds exactly when `nth_char` does. */
  method NewUnexpectedToken(line: string, index: nat) returns (r: Option<UnexpectedToken>)
    ensures r.Some? <==> IsCharStart(line, index)
    ensures r.Some? ==> r.value.Valid() && r.value.line == line && r.value.index == index
  {
    var c := NthChar(line, index);
    match c
    case Returned(token) =>
      r := Some(UnexpectedToken(index, line, token));
    case Panicked(_) =>
      r := None;
  }

  /** `Unexpected token <token> <line[..index]>{here}`: the line is cut at
      the token and nothing follows the marker. */
  function DisplayUnexpectedToken(e: UnexpectedToken): (r: string)
    requires e.Valid()
    ensures forall k :: 0 <= k < |e.line| && Offset(e.line, k) == e.index ==>
      r == "Unexpected token " + [e.line[k]] + " " + e.line[..k] + Here
    ensures |Here| <= |r| && r[|r| - |Here|..] == Here
  {
    CharStartIsInnerBoundary(e.line, e.index);
    SlicesAtAll(e.line, e.index);
    var before := SliceTo(e.line, e.index).value;
    var text := "Unexpected token " + [e.token] + " " + before + Here;
    assert text == ("Unexpected token " + [e.token] + " " + before) + Here;
    text
  }

  /** `UnexpectedToken::new("foo#bar", 3)` renders
      `Unexpected token # foo{here}`. */
  method UnexpectedTokenExample() returns (text: string)
    ensures text == "Unexpected token # foo{here}"
  {
    var line := "foo#bar";
    assert line[..3] == "foo";
    assert ByteLen("foo") == 3 by {
      assert ByteLen("o") == 1;
      assert ByteLen("oo") == 2;
    }
    assert Offset(line, 3) == 3;
    var e := NewUnexpectedToken(line, 3);
    assert e.Some?;
    text := DisplayUnexpectedToken(e.value);
    assert line[..3] == "foo" && line[3] == '#';
  }

  // ---------------------------------------------------------------------
  // InvalidEscape

  /** `InvalidEscape::new`: succeeds exactly when `escape` occurs in `line`. */
  function NewInvalidEscape(line: string, escape: string): (r: Option<InvalidEscape>)
    ensures r.Some? <==> Occurs(escape, line)
    ensures r.Some? ==> r.value.Valid() && r.value.line == line && r.value.escape == escape
  {
    if Find(line, escape).Some? then Some(InvalidEscape(line, escape)) else None
  }

  /** `Invalid escape sequence <escape> in <line>`: both fields can be read
      back at positions fixed by `|escape|`. */
  function DisplayInvalidEscape(e: InvalidEscape): (r: string)
    ensures |r| == 24 + |e.escape| + 4 + |e.line|
    ensures r[..24] == "Invalid escape sequence "
    ensures r[24..24 + |e.escape|] == e.escape
    ensures r[24 + |e.escape|..28 + |e.escape|] == " in "
    ensures r[28 + |e.escape|..] == e.line
  {
    "Invalid escape sequence " + e.escape + " in " + e.line
  }

  // ---------------------------------------------------------------------
  // InvalidIdentifier

  /** `InvalidIdentifier::new`: succeeds exactly when `identifier` occurs
      in `line` and the external identifier rule `isValid` rejects it. */
  function NewInvalidIdentifier(line: string, identifier: string, isValid: string -> bool): (r: Option<InvalidIdentifier>)
    ensures r.Some? <==> Occurs(identifier, line) && !isValid(identifier)
    ensures r.Some? ==> r.value.ValidUnder(isValid) && r.value.line == line && r.value.ident == identifier
  {
    if Find(line, identifier).None? then None
    else if isValid(identifier) then None
    else Some(InvalidIdentifier(line, identifier))
  }

  /** `Invalid identifier <ident> in <line>`. */
  function DisplayInvalidIdentifier(e: InvalidIdentifier): (r: string)
    ensures |r| == 19 + |e.ident| + 4 + |e.line|
    ensures r[..19] == "Invalid identifier "
    ensures r[19..19 + |e.ident|] == e.ident
    ensures r[19 + |e.ident|..23 + |e.ident|] == " in "
    ensures r[23 + |e.ident|..] == e.line
  {
    "Invalid identifier " + e.ident + " in " + e.line
  }
}
