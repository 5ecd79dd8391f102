/**
 * The expression lexer: a scanner over the trimmed input that reads numbers
 * and identifiers by maximal munch, makes a one-character token of each
 * operator and parenthesis, skips whitespace and throws
 * IllegalArgumentException on any other character.
 *
 * Character classes follow java.lang.Character on ASCII letters and
 * digits. Character.isWhitespace follows Java 9 and later (Unicode 8.0
 * and later), where U+180E MONGOLIAN VOWEL SEPARATOR is not whitespace;
 * Java 8 and earlier counted it. String.trim is modelled exactly.
 */
module Lexers {
  import opened Outcomes

  /** The token types of the enum Type. */
  datatype Type = Number | Operator | Identifier | Parenthesis

  datatype Token = Token(kind: Type, text: string)

  // ------------------------------------------------------ character classes

  /** Character.isDigit, on ASCII. */
  predicate IsDigit(c: char)
  {
    '0' <= c <= '9'
  }

  /** Character.isLetter, on ASCII. */
  predicate IsLetter(c: char)
  {
    'a' <= c <= 'z' || 'A' <= c <= 'Z'
  }

  /** Character.isLetterOrDigit. */
  predicate IsLetterOrDigit(c: char)
  {
    IsLetter(c) || IsDigit(c)
  }

  /**
   * Character.isWhitespace: the Unicode space, line and paragraph
   * separators other than the no-break spaces U+00A0, U+2007 and U+202F,
   * and the controls U+0009 to U+000D and U+001C to U+001F.
   */
  predicate IsWhitespace(c: char)
  {
    || '\t' <= c <= '\r'
    || '\U{1C}' <= c <= ' '
    || c == '\U{1680}'
    || '\U{2000}' <= c <= '\U{2006}'
    || '\U{2008}' <= c <= '\U{200A}'
    || c == '\U{2028}' || c == '\U{2029}' || c == '\U{205F}' || c == '\U{3000}'
  }

  /**
   * What isWhitespace promises: the ASCII blanks and the line separator are
   * whitespace; the no-break spaces and U+180E (whitespace only up to
   * Java 8) are not; no letter or digit is whitespace.
   */
  lemma WhitespaceClass(c: char)
    ensures c == ' ' || c == '\t' || c == '\n' || c == '\r' || c == '\U{2028}' ==> IsWhitespace(c)
    ensures c == '\U{A0}' || c == '\U{2007}' || c == '\U{202F}' || c == '\U{180E}' ==> !IsWhitespace(c)
    ensures IsWhitespace(c) ==> !IsLetterOrDigit(c) && c <= '\U{3000}'
  {
  }

  /** s.indexOf(c): the first index of c in s, or -1. */
  function IndexOf(s: string, c: char): (r: int)
    ensures -1 <= r < |s|
    ensures r == -1 <==> c !in s
    ensures r >= 0 ==> s[r] == c && c !in s[..r]
  {
    if s == [] then -1
    else if s[0] == c then 0
    else var k := IndexOf(s[1..], c); if k == -1 then -1 else k + 1
  }

  /** isOperator: the index of c in the four operator characters is not -1. */
  function IsOperator(c: char): (r: bool)
    ensures r <==> c == '+' || c == '-' || c == '*' || c == '/'
  {
    IndexOf("+-*/", c) != -1
  }

  /** isParenthesis: the index of c in the two parenthesis characters is not -1. */
  function IsParenthesis(c: char): (r: bool)
    ensures r <==> c == '(' || c == ')'
  {
    IndexOf("()", c) != -1
  }

  /** The characters that end tokenize with IllegalArgumentException. */
  predicate Unexpected(c: char)
  {
    !(IsDigit(c) || c == '.' || IsLetter(c) || IsOperator(c) || IsParenthesis(c) || IsWhitespace(c))
  }

  // ------------------------------------------------------------------ trim

  /** The number of leading characters at or below U+0020. */
  function TrimStart(s: string): (r: nat)
    ensures r <= |s|
    ensures forall k :: 0 <= k < r ==> s[k] <= ' '
    ensures r < |s| ==> s[r] > ' '
  {
    if s == [] || s[0] > ' ' then 0 else 1 + TrimStart(s[1..])
  }

  /** The end of s once the trailing characters at or below U+0020 are cut. */
  function TrimEnd(s: string): (r: nat)
    ensures r <= |s|
    ensures forall k :: r <= k < |s| ==> s[k] <= ' '
    ensures r > 0 ==> s[r - 1] > ' '
  {
    if s == [] || s[|s| - 1] > ' ' then |s| else TrimEnd(s[..|s| - 1])
  }

  /**
   * String.trim: s without its leading and trailing characters at or below
   * U+0020. What is left is a slice of s that starts and ends above U+0020,
   * and everything cut off lies at or below it.
   */
  function Trim(s: string): (r: string)
    ensures r == [] || (r[0] > ' ' && r[|r| - 1] > ' ')
    ensures TrimStart(s) + |r| <= |s| && r == s[TrimStart(s)..TrimStart(s) + |r|]
    ensures forall k :: 0 <= k < TrimStart(s) || TrimStart(s) + |r| <= k < |s| ==> s[k] <= ' '
  {
    var a, b := TrimStart(s), TrimEnd(s);
    if a < b then s[a..b]
    else
      assert b == 0;
      []
  }

  /** Trimming twice is trimming once. */
  lemma TrimIdempotent(s: string)
    ensures Trim(Trim(s)) == Trim(s)
  {
    var r := Trim(s);
    if r != [] {
      assert TrimStart(r) == 0;
      assert TrimEnd(r) == |r|;
    }
  }

  // ------------------------------------------------------- the scan, as values

  /** The characters a token of the kind goes on over: digits and '.' for a number, letters and digits for an identifier. */
  predicate Continues(kind: Type, c: char)
  {
    match kind
    case Number => IsDigit(c) || c == '.'
    case Identifier => IsLetterOrDigit(c)
    case _ => false
  }

  /** Where the maximal run of the kind starting at i ends: the first later index whose character does not continue it. */
  function RunEnd(s: string, i: nat, kind: Type): (r: nat)
    requires i <= |s|
    ensures i <= r <= |s|
    ensures forall k :: i <= k < r ==> Continues(kind, s[k])
    ensures r == |s| || !Continues(kind, s[r])
    decreases |s| - i
  {
    if i < |s| && Continues(kind, s[i]) then RunEnd(s, i + 1, kind) else i
  }

  /** One pass of the loop body of tokenize: a token and the position after it, a skipped character, or a throw. */
  datatype Step = Emit(token: Token, next: nat) | Skip(next: nat) | Stuck

  /** The if-chain of tokenize on the character at position i. */
  function StepAt(s: string, i: nat): (r: Step)
    requires i < |s|
    ensures !r.Stuck? ==> i < r.next <= |s|
    ensures r.Stuck? <==> Unexpected(s[i])
    ensures r.Emit? ==> r.token.text == s[i..r.next]
    ensures r.Skip? ==> r.next == i + 1 && IsWhitespace(s[i])
  {
    var c := s[i];
    if IsDigit(c) || c == '.' then
      var j := RunEnd(s, i, Number);
      Emit(Token(Number, s[i..j]), j)
    else if IsLetter(c) then
      var j := RunEnd(s, i, Identifier);
      Emit(Token(Identifier, s[i..j]), j)
    else if IsOperator(c) then
      Emit(Token(Operator, [c]), i + 1)
    else if IsParenthesis(c) then
      Emit(Token(Parenthesis, [c]), i + 1)
    else if IsWhitespace(c) then
      Skip(i + 1)
    else
      Stuck
  }

  /** A step emits a well-formed token, and every character it consumes is one tokenize accepts. */
  lemma StepFacts(s: string, i: nat)
    requires i < |s|
    ensures StepAt(s, i).Emit? ==> WellFormedToken(StepAt(s, i).token)
    ensures !StepAt(s, i).Stuck? ==> forall k :: i <= k < StepAt(s, i).next ==> !Unexpected(s[k])
  {
  }

  /** What tokenize does from position i: the tokens it appends, and the position where it stops. */
  datatype Scanned = Scanned(tokens: seq<Token>, stop: nat)

  /** The while loop of tokenize, from position i of s. */
  function Scan(s: string, i: nat): (r: Scanned)
    requires i <= |s|
    ensures i <= r.stop <= |s|
    decreases |s| - i
  {
    if i == |s| then Scanned([], i)
    else
      match StepAt(s, i)
      case Emit(t, j) => var rest := Scan(s, j); Scanned([t] + rest.tokens, rest.stop)
      case Skip(j) => Scan(s, j)
      case Stuck => Scanned([], i)
  }

  /** s without its whitespace. */
  function Visible(s: string): string
  {
    if s == [] then [] else (if IsWhitespace(s[0]) then [] else [s[0]]) + Visible(s[1..])
  }

  /** The token texts one after the other. */
  function Texts(ts: seq<Token>): string
  {
    if ts == [] then [] else ts[0].text + Texts(ts[1..])
  }

  /** A token as tokenize makes it: a nonempty text whose characters fit its type. */
  predicate WellFormedToken(t: Token)
  {
    match t.kind
    case Number => t.text != [] && forall k :: 0 <= k < |t.text| ==> Continues(Number, t.text[k])
    case Identifier => t.text != [] && IsLetter(t.text[0]) && forall k :: 0 <= k < |t.text| ==> Continues(Identifier, t.text[k])
    case Operator => |t.text| == 1 && IsOperator(t.text[0])
    case Parenthesis => |t.text| == 1 && IsParenthesis(t.text[0])
  }

  // --------------------------------------------------------- the scan's laws

  /** The scan stops exactly at the first unexpected character, or at the end when there is none. */
  lemma {:induction false} ScanStopsAtFirstUnexpected(s: string, i: nat)
    requires i <= |s|
    ensures forall k :: i <= k < Scan(s, i).stop ==> !Unexpected(s[k])
    ensures Scan(s, i).stop < |s| ==> Unexpected(s[Scan(s, i).stop])
    decreases |s| - i
  {
    if i < |s| && !StepAt(s, i).Stuck? {
      StepFacts(s, i);
      ScanStopsAtFirstUnexpected(s, StepAt(s, i).next);
    }
  }

  /** The scan reaches the end of s exactly when no character of s[i..] is unexpected. */
  lemma ScanSucceeds(s: string, i: nat)
    requires i <= |s|
    ensures Scan(s, i).stop == |s| <==> forall k :: i <= k < |s| ==> !Unexpected(s[k])
  {
    ScanStopsAtFirstUnexpected(s, i);
  }

  /** Every token the scan makes is well formed. */
  lemma {:induction false} ScanTokensWellFormed(s: string, i: nat)
    requires i <= |s|
    ensures forall t :: t in Scan(s, i).tokens ==> WellFormedToken(t)
    decreases |s| - i
  {
    if i < |s| && !StepAt(s, i).Stuck? {
      StepFacts(s, i);
      ScanTokensWellFormed(s, StepAt(s, i).next);
    }
  }

  lemma {:induction false} VisibleAppend(a: string, b: string)
    ensures Visible(a + b) == Visible(a) + Visible(b)
  {
    if a != [] {
      var head := if IsWhitespace(a[0]) then [] else [a[0]];
      assert (a + b)[0] == a[0];
      assert (a + b)[1..] == a[1..] + b;
      assert Visible(a + b) == head + Visible(a[1..] + b);
      VisibleAppend(a[1..], b);
    } else {
      assert a + b == b;
    }
  }

  /** A well-formed token's text holds no whitespace. */
  lemma {:induction false} VisibleToken(s: string, kind: Type)
    requires WellFormedToken(Token(kind, s))
    ensures Visible(s) == s
  {
    match kind
    case Number => VisibleRun(s, kind);
    case Identifier => VisibleRun(s, kind);
    case _ =>
      Printable(s[0]);
      VisibleSingle(s);
  }

  /** No operator and no parenthesis is whitespace. */
  lemma Printable(c: char)
    requires IsOperator(c) || IsParenthesis(c)
    ensures !IsWhitespace(c)
  {
  }

  /** A character that is not whitespace is its own visible part. */
  lemma VisibleSingle(s: string)
    requires |s| == 1 && !IsWhitespace(s[0])
    ensures Visible(s) == s
  {
    assert s[1..] == [];
  }

  lemma {:induction false} VisibleRun(s: string, kind: Type)
    requires forall k :: 0 <= k < |s| ==> Continues(kind, s[k])
    ensures Visible(s) == s
  {
    if s != [] {
      VisibleRun(s[1..], kind);
    }
  }

  /** The text a step consumes, without its whitespace, is the text of the token it emits. */
  lemma StepVisible(s: string, i: nat)
    requires i < |s| && !StepAt(s, i).Stuck?
    ensures Visible(s[i..StepAt(s, i).next]) == if StepAt(s, i).Emit? then StepAt(s, i).token.text else []
  {
    var r := StepAt(s, i);
    if r.Emit? {
      StepFacts(s, i);
      VisibleToken(r.token.text, r.token.kind);
    } else {
      assert s[i..r.next] == [s[i]];
    }
  }

  /** The token texts, one after the other, are the scanned part of s with its whitespace removed. */
  lemma {:induction false} ScanTexts(s: string, i: nat)
    requires i <= |s|
    ensures Texts(Scan(s, i).tokens) == Visible(s[i..Scan(s, i).stop])
    decreases |s| - i
  {
    if i < |s| && !StepAt(s, i).Stuck? {
      var j := StepAt(s, i).next;
      var stop := Scan(s, i).stop;
      ScanTexts(s, j);
      StepVisible(s, i);
      assert s[i..stop] == s[i..j] + s[j..stop];
      VisibleAppend(s[i..j], s[j..stop]);
      if StepAt(s, i).Emit? {
        var ts := Scan(s, i).tokens;
        assert ts[1..] == Scan(s, j).tokens;
      }
    }
  }

  /**
   * A new Lexer on s: tokenize succeeds exactly when the trimmed input holds
   * no unexpected character, makes only well-formed tokens, and their texts
   * spell the trimmed input, up to where it stopped, without whitespace.
   */
  lemma LexerOnInput(s: string)
    ensures var r := Scan(Trim(s), 0);
      && (r.stop == |Trim(s)| <==> forall k :: 0 <= k < |Trim(s)| ==> !Unexpected(Trim(s)[k]))
      && (forall t :: t in r.tokens ==> WellFormedToken(t))
      && Texts(r.tokens) == Visible(Trim(s)[..r.stop])
  {
    var trimmed := Trim(s);
    ScanSucceeds(trimmed, 0);
    ScanTokensWellFormed(trimmed, 0);
    ScanTexts(trimmed, 0);
    assert trimmed[0..Scan(trimmed, 0).stop] == trimmed[..Scan(trimmed, 0).stop];
  }

  /** The tokens a step emits. */
  function Emitted(r: Step): seq<Token>
  {
    if r.Emit? then [r.token] else []
  }

  /** After one step the scan from the new position accounts for the rest of the tokens. */
  lemma ScanAdvance(s: string, p: nat, before: seq<Token>, tokens: seq<Token>, pos: nat)
    requires p < |s| && !StepAt(s, p).Stuck?
    requires pos == StepAt(s, p).next && tokens == before + Emitted(StepAt(s, p))
    ensures tokens + Scan(s, pos).tokens == before + Scan(s, p).tokens
    ensures Scan(s, pos).stop == Scan(s, p).stop
  {
    match StepAt(s, p)
    case Emit(t, j) =>
      assert Scan(s, p).tokens == [t] + Scan(s, j).tokens;
      assert tokens + Scan(s, pos).tokens == before + ([t] + Scan(s, j).tokens);
    case Skip(j) =>
      assert Scan(s, p) == Scan(s, j);
      assert tokens == before;
  }

  /** "1.2.3" is a single number token: '.' may repeat inside a number. */
  lemma RepeatedDotsMakeOneNumber()
    ensures Scan("1.2.3", 0) == Scanned([Token(Number, "1.2.3")], 5)
  {
    var s := "1.2.3";
    assert RunEnd(s, 0, Number) == 5;
    assert s[0..5] == s;
    assert Scan(s, 5) == Scanned([], 5);
  }

  /** An unknown character stops the scan after the tokens before it. */
  lemma UnknownCharacterStops()
    ensures Scan("x+#1", 0) == Scanned([Token(Identifier, "x"), Token(Operator, "+")], 2)
  {
    var s := "x+#1";
    assert RunEnd(s, 0, Identifier) == 1;
    assert s[0..1] == "x";
    assert Unexpected(s[2]);
    assert Scan(s, 2) == Scanned([], 2);
    assert Scan(s, 1) == Scanned([Token(Operator, "+")], 2);
  }

  // ------------------------------------------------------------- the class

  class Lexer {
    const input: string
    var tokens: seq<Token>
    var pos: nat

    ghost predicate Valid()
      reads this
    {
      pos <= |input|
    }

    /** Stores the trimmed input; no token yet, position 0. */
    constructor (input: string)
      ensures Valid()
      ensures this.input == Trim(input) && tokens == [] && pos == 0
    {
      this.input := Trim(input);
      tokens := [];
      pos := 0;
    }

    /**
     * tokenize: scans from pos on, appending to the tokens field, and
     * returns the whole list. An unexpected character throws
     * IllegalArgumentException with pos left on it and the tokens before it
     * kept. Since pos and tokens persist, a call after a successful one
     * appends nothing and returns the same list.
     */
    method Tokenize() returns (r: Result<seq<Token>>)
      requires Valid()
      modifies this
      ensures Valid()
      ensures tokens == old(tokens) + Scan(input, old(pos)).tokens && pos == Scan(input, old(pos)).stop
      ensures r.Success? <==> pos == |input|
      ensures r.Success? ==> r.value == tokens
      ensures r.Failure? ==> r.error == IllegalArgument(input[pos])
      ensures old(pos) == |input| ==> r == Success(old(tokens)) && tokens == old(tokens)
    {
      ghost var start := pos;
      assert start == |input| ==> Scan(input, start).tokens == [];
      while pos < |input|
        invariant start <= pos <= |input|
        invariant tokens + Scan(input, pos).tokens == old(tokens) + Scan(input, start).tokens
        invariant Scan(input, pos).stop == Scan(input, start).stop
        decreases |input| - pos
      {
        ghost var before, p := tokens, pos;
        var current := input[pos];
        if IsDigit(current) || current == '.' {
          TokenizeNumberOrFloat();
        } else if IsLetter(current) {
          TokenizeIdentifier();
        } else if IsOperator(current) {
          tokens := tokens + [Token(Operator, [input[pos]])];
          pos := pos + 1;
        } else if IsParenthesis(current) {
          tokens := tokens + [Token(Parenthesis, [input[pos]])];
          pos := pos + 1;
        } else if IsWhitespace(current) {
          pos := pos + 1;
        } else {
          assert Scan(input, pos) == Scanned([], pos);
          return Failure(IllegalArgument(current));
        }
        ScanAdvance(input, p, before, tokens, pos);
      }
      assert Scan(input, pos).tokens == [] && old(tokens) + [] == old(tokens);
      return Success(tokens);
    }

    /** tokenizeNumberOrFloat: the maximal run of digits and '.' from pos becomes a NUMBER token. */
    method TokenizeNumberOrFloat()
      requires Valid()
      modifies this
      ensures Valid()
      ensures pos == RunEnd(input, old(pos), Number)
      ensures tokens == old(tokens) + [Token(Number, input[old(pos)..pos])]
    {
      var number: string := [];
      while pos < |input| && (IsDigit(input[pos]) || input[pos] == '.')
        invariant old(pos) <= pos <= |input|
        invariant number == input[old(pos)..pos]
        invariant RunEnd(input, pos, Number) == RunEnd(input, old(pos), Number)
        invariant tokens == old(tokens)
        decreases |input| - pos
      {
        number := number + [input[pos]];
        pos := pos + 1;
      }
      tokens := tokens + [Token(Number, number)];
    }

    /** tokenizeIdentifier: the maximal run of letters and digits from pos becomes an IDENTIFIER token. */
    method TokenizeIdentifier()
      requires Valid()
      modifies this
      ensures Valid()
      ensures pos == RunEnd(input, old(pos), Identifier)
      ensures tokens == old(tokens) + [Token(Identifier, input[old(pos)..pos])]
    {
      var identifier: string := [];
      while pos < |input| && IsLetterOrDigit(input[pos])
        invariant old(pos) <= pos <= |input|
        invariant identifier == input[old(pos)..pos]
        invariant RunEnd(input, pos, Identifier) == RunEnd(input, old(pos), Identifier)
        invariant tokens == old(tokens)
        decreases |input| - pos
      {
        identifier := identifier + [input[pos]];
        pos := pos + 1;
      }
      tokens := tokens + [Token(Identifier, identifier)];
    }
  }
}
