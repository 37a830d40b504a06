/** Text side of the CTC label encoder: transcript normalisation, the
    space-doubling split into tokens, and the fixed character-to-id table. */
module CtcText {

  // ---------------------------------------------------------------------
  // The id table
  // ---------------------------------------------------------------------

  /** Id of the blank/space label. */
  const SpaceIndex: int := 0
  /** One below the code point of the first Cyrillic small letter U+0430. */
  const FirstIndex: int := 0x0430 - 1
  /** One above the code point of the last Cyrillic small letter U+044F. */
  const YoIndex: int := 0x044F + 1

  /** Cyrillic small letter io, which lies outside the contiguous block. */
  const Yo: char := '\U{0451}'
  /** The block of Cyrillic small letters U+0430 .. U+044F. */
  const FirstLetter: char := '\U{0430}'
  const LastLetter: char := '\U{044F}'

  /** A label before it is turned into an id: the blank or one character. */
  datatype Token = Space | Ch(c: char)

  /** The id of one label. */
  function TokenId(t: Token): int
  {
    match t
    case Space => SpaceIndex
    case Ch(c) => if c == Yo then YoIndex - FirstIndex else c as int - FirstIndex
  }

  /** The id sequence of a token sequence, one id per token. */
  function Encode(ts: seq<Token>): seq<int>
  {
    if ts == [] then [] else [TokenId(ts[0])] + Encode(ts[1..])
  }

  /** Encoding keeps the length, and id k is the table id of token k. */
  lemma {:induction false} EncodeIds(ts: seq<Token>)
    ensures |Encode(ts)| == |ts|
    ensures forall k :: 0 <= k < |ts| ==> Encode(ts)[k] == TokenId(ts[k])
  {
    if ts != [] {
      EncodeIds(ts[1..]);
    }
  }

  predicate IsLetter(c: char)
  {
    FirstLetter <= c <= LastLetter
  }

  /** The labels the model is trained on: blank, the 32 letters and io. */
  predicate InAlphabet(t: Token)
  {
    t == Space || (t.Ch? && (IsLetter(t.c) || t.c == Yo))
  }

  lemma LetterIds(c: char)
    requires IsLetter(c)
    ensures TokenId(Ch(c)) == c as int - 0x042F
    ensures 1 <= TokenId(Ch(c)) <= 32
  {
  }

  lemma LetterIdsIncreasing(a: char, b: char)
    requires IsLetter(a) && IsLetter(b) && a < b
    ensures TokenId(Ch(a)) < TokenId(Ch(b))
  {
  }

  lemma YoFollowsYa()
    ensures TokenId(Ch(Yo)) == TokenId(Ch(LastLetter)) + 1 == 33
    ensures TokenId(Ch(FirstLetter)) == 1
    ensures TokenId(Space) == 0
  {
  }

  /** The table is a bijection between the alphabet and 0 .. 33. */
  lemma AlphabetIds(t: Token, u: Token)
    requires InAlphabet(t) && InAlphabet(u)
    ensures 0 <= TokenId(t) <= 33
    ensures TokenId(t) == TokenId(u) <==> t == u
  {
  }

  /** Besides the blank, only capital ya (U+042F) would receive id 0. */
  lemma ZeroIdOnlyForBlank(t: Token)
    ensures TokenId(t) == 0 <==> t == Space || t == Ch('\U{042F}')
  {
  }

  // ---------------------------------------------------------------------
  // strip() and lower()
  // ---------------------------------------------------------------------

  /** Whitespace as Python's str.isspace sees it, within ASCII. */
  predicate IsWhitespace(c: char)
  {
    c == ' ' || '\t' <= c <= '\r' || '\U{001C}' <= c <= '\U{001F}'
  }

  function StripLeading(s: string): string
    decreases |s|
  {
    if s != [] && IsWhitespace(s[0]) then StripLeading(s[1..]) else s
  }

  function StripTrailing(s: string): string
    decreases |s|
  {
    if s != [] && IsWhitespace(s[|s| - 1]) then StripTrailing(s[..|s| - 1]) else s
  }

  /** str.strip(). */
  function Strip(s: string): string
  {
    StripTrailing(StripLeading(s))
  }

  /** StripLeading drops the longest all-whitespace prefix. */
  lemma {:induction false} StripLeadingSpec(s: string)
    ensures var r := StripLeading(s);
      |r| <= |s| && r == s[|s| - |r|..]
      && (forall k :: 0 <= k < |s| - |r| ==> IsWhitespace(s[k]))
      && (r != [] ==> !IsWhitespace(r[0]))
    decreases |s|
  {
    if s != [] && IsWhitespace(s[0]) {
      StripLeadingSpec(s[1..]);
    }
  }

  /** StripTrailing drops the longest all-whitespace suffix. */
  lemma {:induction false} StripTrailingSpec(s: string)
    ensures var r := StripTrailing(s);
      |r| <= |s| && r == s[..|r|]
      && (forall k :: |r| <= k < |s| ==> IsWhitespace(s[k]))
      && (r != [] ==> !IsWhitespace(r[|r| - 1]))
    decreases |s|
  {
    if s != [] && IsWhitespace(s[|s| - 1]) {
      StripTrailingSpec(s[..|s| - 1]);
    }
  }

  /** str.strip() keeps the infix between the leading and the trailing
      whitespace, and that infix neither starts nor ends with whitespace. */
  lemma {:induction false} StripSpec(s: string)
    ensures |Strip(s)| <= |StripLeading(s)| <= |s|
    ensures Strip(s) == s[|s| - |StripLeading(s)|..|s| - |StripLeading(s)| + |Strip(s)|]
    ensures forall k :: 0 <= k < |s| - |StripLeading(s)| ==> IsWhitespace(s[k])
    ensures forall k :: |s| - |StripLeading(s)| + |Strip(s)| <= k < |s| ==> IsWhitespace(s[k])
    ensures Strip(s) != [] ==> !IsWhitespace(Strip(s)[0]) && !IsWhitespace(Strip(s)[|Strip(s)| - 1])
  {
    var l := StripLeading(s);
    StripLeadingSpec(s);
    StripTrailingSpec(l);
    StripInfix(s, l, StripTrailing(l));
  }

  /** The two halves of strip() put together: the text is a whitespace
      prefix, the kept infix r and a whitespace suffix. */
  lemma {:induction false} StripInfix(s: string, l: string, r: string)
    requires |r| <= |l| <= |s|
    requires l == s[|s| - |l|..] && r == l[..|r|]
    requires forall k :: |r| <= k < |l| ==> IsWhitespace(l[k])
    ensures r == s[|s| - |l|..|s| - |l| + |r|]
    ensures forall k :: |s| - |l| + |r| <= k < |s| ==> IsWhitespace(s[k])
  {
    var i := |s| - |l|;
    forall k | i + |r| <= k < |s| ensures IsWhitespace(s[k]) {
      assert s[k] == l[k - i];
    }
  }

  /** A capital letter that lower() changes, within ASCII and Cyrillic. */
  predicate IsUpper(c: char)
  {
    'A' <= c <= 'Z' || '\U{0400}' <= c <= '\U{042F}'
  }

  /** Lower-casing of one character: ASCII A-Z, Cyrillic capitals
      U+0410 .. U+042F (+0x20) and U+0400 .. U+040F, among them io (+0x50). */
  function LowerChar(c: char): (r: char)
    ensures !IsUpper(r)
    ensures !IsUpper(c) ==> r == c
    ensures IsUpper(c) ==> r != c
    ensures IsWhitespace(r) <==> IsWhitespace(c)
  {
    if 'A' <= c <= 'Z' then (c as int + 0x20) as char
    else if '\U{0410}' <= c <= '\U{042F}' then (c as int + 0x20) as char
    else if '\U{0400}' <= c <= '\U{040F}' then (c as int + 0x50) as char
    else c
  }

  /** str.lower(), character by character. */
  function Lower(s: string): (r: string)
    ensures |r| == |s|
  {
    seq(|s|, i requires 0 <= i < |s| => LowerChar(s[i]))
  }

  lemma LowerIdempotent(s: string)
    ensures Lower(Lower(s)) == Lower(s)
    ensures forall k :: 0 <= k < |s| ==> !IsUpper(Lower(s)[k])
  {
  }

  // ---------------------------------------------------------------------
  // split(' ') and ' '.join
  // ---------------------------------------------------------------------

  /** str.split(' '): the pieces between single spaces, empty ones included. */
  function Split(s: string): (r: seq<string>)
    ensures |r| >= 1
    ensures forall k :: 0 <= k < |r| ==> ' ' !in r[k]
  {
    if s == [] then [[]]
    else if s[0] == ' ' then
      assert s == [s[0]] + s[1..];
      [[]] + Split(s[1..])
    else
      assert s == [s[0]] + s[1..];
      var t := Split(s[1..]);
      [[s[0]] + t[0]] + t[1..]
  }

  /** ' '.join(pieces). */
  function Join(ws: seq<string>): string
  {
    if |ws| == 0 then []
    else if |ws| == 1 then ws[0]
    else ws[0] + " " + Join(ws[1..])
  }

  lemma {:induction false} JoinSplit(s: string)
    ensures Join(Split(s)) == s
  {
    if s == [] {
    } else if s[0] == ' ' {
      JoinSplit(s[1..]);
      assert Split(s) == [[]] + Split(s[1..]);
    } else {
      JoinSplit(s[1..]);
      var t := Split(s[1..]);
      if |t| == 1 {
      } else {
        assert Join(t) == t[0] + " " + Join(t[1..]);
        assert Split(s)[1..] == t[1..];
        assert s == [s[0]] + s[1..];
      }
    }
  }

  lemma {:induction false} SplitJoin(ws: seq<string>)
    requires |ws| >= 1
    requires forall k :: 0 <= k < |ws| ==> ' ' !in ws[k]
    ensures Split(Join(ws)) == ws
  {
    if |ws| == 1 {
      SplitWord(ws[0]);
    } else {
      SplitJoin(ws[1..]);
      SplitWordThenSpace(ws[0], Join(ws[1..]));
      assert ws == [ws[0]] + ws[1..];
    }
  }

  lemma {:induction false} SplitWord(w: string)
    requires ' ' !in w
    ensures Split(w) == [w]
  {
    if w != [] {
      SplitWord(w[1..]);
      assert w == [w[0]] + w[1..];
    }
  }

  lemma {:induction false} SplitWordThenSpace(w: string, rest: string)
    requires ' ' !in w
    ensures Split(w + " " + rest) == [w] + Split(rest)
    decreases |w|
  {
    var s := w + " " + rest;
    if w == [] {
      assert s[0] == ' ' && s[1..] == rest;
    } else {
      assert s[0] == w[0] && s[1..] == w[1..] + " " + rest;
      SplitWordThenSpace(w[1..], rest);
      assert w == [w[0]] + w[1..];
    }
  }

  // ---------------------------------------------------------------------
  // Deleting the punctuation
  // ---------------------------------------------------------------------

  /** The six characters the encoder deletes: . ? , ' ! - */
  const Punctuation: set<char> := {'.', '?', ',', '\'', '!', '-'}

  /** str.replace(c, ''). */
  function Delete(s: string, c: char): string
  {
    if s == [] then []
    else if s[0] == c then Delete(s[1..], c)
    else [s[0]] + Delete(s[1..], c)
  }

  /** Reference definition: the characters of s outside `bad`, in order. */
  function Filter(s: string, bad: set<char>): (r: string)
    ensures forall k :: 0 <= k < |r| ==> r[k] !in bad
    ensures (forall k :: 0 <= k < |s| ==> s[k] !in bad) ==> r == s
  {
    if s == [] then []
    else
      assert s == [s[0]] + s[1..];
      if s[0] in bad then Filter(s[1..], bad) else [s[0]] + Filter(s[1..], bad)
  }

  /** Every character outside `bad` keeps its number of occurrences. */
  lemma {:induction false} FilterCounts(s: string, bad: set<char>)
    ensures forall c :: c !in bad ==> multiset(Filter(s, bad))[c] == multiset(s)[c]
  {
    if s != [] {
      FilterCounts(s[1..], bad);
      assert s == [s[0]] + s[1..];
    }
  }

  /** Filtering commutes with concatenation, so the kept characters keep
      their relative order. */
  lemma {:induction false} FilterConcat(a: string, b: string, bad: set<char>)
    ensures Filter(a + b, bad) == Filter(a, bad) + Filter(b, bad)
  {
    if a == [] {
      assert a + b == b;
    } else {
      var ab := a + b;
      assert ab[0] == a[0] && ab[1..] == a[1..] + b;
      FilterConcat(a[1..], b, bad);
      if a[0] !in bad {
        assert Filter(ab, bad) == [a[0]] + (Filter(a[1..], bad) + Filter(b, bad));
        assert Filter(a, bad) == [a[0]] + Filter(a[1..], bad);
      }
    }
  }

  lemma {:induction false} DeleteAfterFilter(s: string, bad: set<char>, c: char)
    ensures Delete(Filter(s, bad), c) == Filter(s, bad + {c})
  {
    if s != [] {
      DeleteAfterFilter(s[1..], bad, c);
    }
  }

  /** The chain of six replace(…, '') calls. */
  function DeletePunctuation(s: string): string
  {
    Delete(Delete(Delete(Delete(Delete(Delete(s, '.'), '?'), ','), '\''), '!'), '-')
  }

  lemma {:induction false} DeletePunctuationIsFilter(s: string)
    ensures DeletePunctuation(s) == Filter(s, Punctuation)
  {
    var b0: set<char> := {};
    var b1 := b0 + {'.'};
    var b2 := b1 + {'?'};
    var b3 := b2 + {','};
    var b4 := b3 + {'\''};
    var b5 := b4 + {'!'};
    var b6 := b5 + {'-'};
    DeleteAfterFilter(s, b0, '.');
    var d1 := Delete(s, '.');
    DeleteAfterFilter(s, b1, '?');
    var d2 := Delete(d1, '?');
    DeleteAfterFilter(s, b2, ',');
    var d3 := Delete(d2, ',');
    DeleteAfterFilter(s, b3, '\'');
    var d4 := Delete(d3, '\'');
    DeleteAfterFilter(s, b4, '!');
    var d5 := Delete(d4, '!');
    DeleteAfterFilter(s, b5, '-');
    assert b6 == Punctuation;
  }

  // ---------------------------------------------------------------------
  // The normalised transcript (`original`)
  // ---------------------------------------------------------------------

  function CleanTranscript(text: string): string
  {
    DeletePunctuation(Join(Split(Lower(Strip(text)))))
  }

  /** `original` is the stripped, lowered text with exactly the six
      punctuation characters deleted: no punctuation and no capital is left,
      every other character keeps its count, and the ' '.join/split pair
      changes nothing. */
  lemma {:induction false} CleanTranscriptSpec(text: string)
    ensures CleanTranscript(text) == Filter(Lower(Strip(text)), Punctuation)
    ensures forall k :: 0 <= k < |CleanTranscript(text)| ==>
      CleanTranscript(text)[k] !in Punctuation && !IsUpper(CleanTranscript(text)[k])
    ensures forall c :: c !in Punctuation ==>
      multiset(CleanTranscript(text))[c] == multiset(Lower(Strip(text)))[c]
  {
    var s := Lower(Strip(text));
    JoinSplit(s);
    DeletePunctuationIsFilter(s);
    FilterCounts(s, Punctuation);
    var r := CleanTranscript(text);
    forall k | 0 <= k < |r| ensures !IsUpper(r[k]) {
      assert r[k] in multiset(r);
      assert r[k] in multiset(s);
      var j :| 0 <= j < |s| && s[j] == r[k];
    }
  }

  // ---------------------------------------------------------------------
  // Space doubling and tokenisation
  // ---------------------------------------------------------------------

  /** str.replace(' ', '  '). */
  function DoubleSpaces(s: string): string
  {
    if s == [] then []
    else if s[0] == ' ' then "  " + DoubleSpaces(s[1..])
    else [s[0]] + DoubleSpaces(s[1..])
  }

  /** The pieces with an empty piece between each neighbouring pair. */
  function Interleave(ws: seq<string>): seq<string>
  {
    if |ws| <= 1 then ws else [ws[0], []] + Interleave(ws[1..])
  }

  /** Splitting the doubled text gives the pieces of the original text with
      an empty piece in every gap. */
  lemma {:induction false} SplitSpaceCons(x: string)
    ensures Split([' '] + x) == [[]] + Split(x)
  {
    assert ([' '] + x)[1..] == x;
  }

  lemma {:induction false} SplitCharCons(c: char, x: string)
    requires c != ' '
    ensures Split([c] + x) == [[c] + Split(x)[0]] + Split(x)[1..]
  {
    assert ([c] + x)[1..] == x;
  }

  lemma {:induction false} SplitDoubled(s: string)
    ensures Split(DoubleSpaces(s)) == Interleave(Split(s))
  {
    if s != [] {
      SplitDoubled(s[1..]);
      assert s == [s[0]] + s[1..];
      if s[0] == ' ' {
        DoubledSpaceStep(s[1..]);
      } else {
        DoubledCharStep(s[0], s[1..]);
      }
    }
  }

  lemma {:induction false} DoubledSpaceStep(rest: string)
    requires Split(DoubleSpaces(rest)) == Interleave(Split(rest))
    ensures Split(DoubleSpaces([' '] + rest)) == Interleave(Split([' '] + rest))
  {
    var x := DoubleSpaces(rest);
    assert ([' '] + rest)[1..] == rest;
    assert DoubleSpaces([' '] + rest) == [' '] + ([' '] + x);
    SplitSpaceCons([' '] + x);
    SplitSpaceCons(x);
    SplitSpaceCons(rest);
  }

  lemma {:induction false} DoubledCharStep(c: char, rest: string)
    requires c != ' '
    requires Split(DoubleSpaces(rest)) == Interleave(Split(rest))
    ensures Split(DoubleSpaces([c] + rest)) == Interleave(Split([c] + rest))
  {
    assert ([c] + rest)[1..] == rest;
    assert DoubleSpaces([c] + rest) == [c] + DoubleSpaces(rest);
    SplitCharCons(c, DoubleSpaces(rest));
    SplitCharCons(c, rest);
    var u := Split(rest);
    if |u| > 1 {
      assert Interleave(u) == [u[0], []] + Interleave(u[1..]);
    }
  }

  /** The tokens of one piece: the blank for an empty piece, else its
      characters in order. */
  function PieceTokens(w: string): seq<Token>
  {
    if w == [] then [Space] else seq(|w|, i requires 0 <= i < |w| => Ch(w[i]))
  }

  /** np.hstack over the per-piece token lists. */
  function Flatten(ps: seq<string>): seq<Token>
  {
    if ps == [] then [] else PieceTokens(ps[0]) + Flatten(ps[1..])
  }

  /** np.hstack of a concatenation is the concatenation of the two stacks. */
  lemma {:induction false} FlattenConcat(ps: seq<string>, qs: seq<string>)
    ensures Flatten(ps + qs) == Flatten(ps) + Flatten(qs)
  {
    if ps != [] {
      assert (ps + qs)[1..] == ps[1..] + qs;
      FlattenConcat(ps[1..], qs);
    } else {
      assert ps + qs == qs;
    }
  }

  /** The token list built from `original`. */
  function Tokens(original: string): seq<Token>
  {
    Flatten(Split(DoubleSpaces(original)))
  }

  /** The target ids of `original`. */
  function Labels(original: string): seq<int>
  {
    Encode(Tokens(original))
  }

  function EmptyPieces(ws: seq<string>): nat
  {
    if ws == [] then 0 else (if ws[0] == [] then 1 else 0) + EmptyPieces(ws[1..])
  }

  lemma {:induction false} InterleaveLength(ws: seq<string>)
    requires |ws| >= 1
    ensures |Flatten(Interleave(ws))| == |Join(ws)| + EmptyPieces(ws)
  {
    if |ws| > 1 {
      InterleaveLength(ws[1..]);
      var i := Interleave(ws);
      assert i[1..] == [[]] + Interleave(ws[1..]);
      assert i[1..][1..] == Interleave(ws[1..]);
    }
  }

  /** The tokens are those of the pieces of `original` with a blank in every
      gap: each empty piece gives one blank, each other piece its characters. */
  lemma {:induction false} TokensOfPieces(original: string)
    ensures Tokens(original) == Flatten(Interleave(Split(original)))
  {
    SplitDoubled(original);
  }

  /** One label per character plus one extra blank per empty piece: the
      "number_of_characters + blanks" of the target. */
  lemma {:induction false} TokensLength(original: string)
    ensures |Tokens(original)| == |original| + EmptyPieces(Split(original))
  {
    TokensOfPieces(original);
    InterleaveLength(Split(original));
    JoinSplit(original);
  }

  /** The empty transcript encodes to a single blank. */
  lemma EmptyOriginal()
    ensures Tokens([]) == [Space]
    ensures Labels([]) == [0]
  {
  }

  /** A space at the start of `original` gives two blanks there. */
  lemma {:induction false} LeadingSpaceTwoBlanks(rest: string)
    ensures Tokens([' '] + rest) == [Space, Space] + Tokens(rest)
  {
    TokensOfPieces([' '] + rest);
    TokensOfPieces(rest);
    SplitSpaceCons(rest);
    FlattenTwoGaps(Split(rest));
  }

  lemma {:induction false} FlattenTwoGaps(u: seq<string>)
    requires |u| >= 1
    ensures Flatten(Interleave([[]] + u)) == [Space, Space] + Flatten(Interleave(u))
  {
    var tail := Interleave(u);
    InterleaveCons([], u);
    FlattenCons([], [[]] + tail);
    FlattenCons([], tail);
  }

  lemma {:induction false} InterleaveCons(w: string, u: seq<string>)
    requires |u| >= 1
    ensures Interleave([w] + u) == [w, []] + Interleave(u)
  {
    assert ([w] + u)[1..] == u;
  }

  lemma {:induction false} FlattenCons(p: string, ps: seq<string>)
    ensures Flatten([p] + ps) == PieceTokens(p) + Flatten(ps)
  {
    assert ([p] + ps)[1..] == ps;
  }

  /** Non-empty words separated by single spaces, no space at either end. */
  predicate SingleSpaced(s: string)
  {
    s != [] && s[0] != ' ' && s[|s| - 1] != ' '
    && forall k :: 0 <= k < |s| - 1 ==> s[k] == ' ' ==> s[k + 1] != ' '
  }

  /** The label of one character when no piece is empty. */
  function CharToken(c: char): Token
  {
    if c == ' ' then Space else Ch(c)
  }

  function SpelledOut(s: string): seq<Token>
  {
    seq(|s|, i requires 0 <= i < |s| => CharToken(s[i]))
  }

  lemma {:induction false} SingleSpacedPieces(s: string)
    requires SingleSpaced(s)
    ensures forall k :: 0 <= k < |Split(s)| ==> Split(s)[k] != []
    decreases |s|
  {
    var t := Split(s[1..]);
    assert Split(s) == [[s[0]] + t[0]] + t[1..];
    if |s| == 1 {
    } else if s[1] == ' ' {
      var s2 := s[2..];
      assert s[1..][1..] == s2;
      assert t == [[]] + Split(s2);
      assert SingleSpaced(s2) by {
        forall k | 0 <= k < |s2| - 1 ensures s2[k] == ' ' ==> s2[k + 1] != ' ' {
          assert s2[k] == s[k + 2] && s2[k + 1] == s[k + 3];
        }
      }
      SingleSpacedPieces(s2);
      assert t[1..] == Split(s2);
    } else {
      var s1 := s[1..];
      assert SingleSpaced(s1) by {
        forall k | 0 <= k < |s1| - 1 ensures s1[k] == ' ' ==> s1[k + 1] != ' ' {
          assert s1[k] == s[k + 1] && s1[k + 1] == s[k + 2];
        }
      }
      SingleSpacedPieces(s1);
    }
  }

  lemma SpelledOutConcat(a: string, b: string)
    ensures SpelledOut(a + b) == SpelledOut(a) + SpelledOut(b)
  {
  }

  lemma {:induction false} InterleaveSpelledOut(ws: seq<string>)
    requires |ws| >= 1
    requires forall k :: 0 <= k < |ws| ==> ws[k] != [] && ' ' !in ws[k]
    ensures Flatten(Interleave(ws)) == SpelledOut(Join(ws))
  {
    if |ws| == 1 {
      assert Flatten(ws) == PieceTokens(ws[0]) + Flatten([]);
    } else {
      InterleaveSpelledOut(ws[1..]);
      var i := Interleave(ws);
      assert i[1..] == [[]] + Interleave(ws[1..]);
      assert i[1..][1..] == Interleave(ws[1..]);
      SpelledOutConcat(ws[0] + " ", Join(ws[1..]));
      SpelledOutConcat(ws[0], " ");
    }
  }

  /** When `original` is single-spaced words, there is exactly one label per
      character, a blank exactly where the text has a space. */
  lemma {:induction false} SingleSpacedTokens(original: string)
    requires SingleSpaced(original)
    ensures Tokens(original) == SpelledOut(original)
  {
    SplitDoubled(original);
    SingleSpacedPieces(original);
    InterleaveSpelledOut(Split(original));
    JoinSplit(original);
  }

  /** Every character label of `Tokens(s)` is a non-space character of s. */
  lemma {:induction false} TokenCharsFromText(s: string)
    ensures forall k :: 0 <= k < |Tokens(s)| && Tokens(s)[k].Ch? ==>
      Tokens(s)[k].c in s && Tokens(s)[k].c != ' '
  {
    DoubledChars(s);
    SplitChars(DoubleSpaces(s));
    FlattenChars(Split(DoubleSpaces(s)), s);
  }

  lemma {:induction false} DoubledChars(s: string)
    ensures forall k :: 0 <= k < |DoubleSpaces(s)| ==> DoubleSpaces(s)[k] in s
  {
    if s != [] {
      DoubledChars(s[1..]);
      var d := DoubleSpaces(s);
      var t := DoubleSpaces(s[1..]);
      forall k | 0 <= k < |d| ensures d[k] in s {
        if s[0] == ' ' {
          if k >= 2 { assert d[k] == t[k - 2]; assert t[k - 2] in s[1..]; }
        } else {
          if k >= 1 { assert d[k] == t[k - 1]; assert t[k - 1] in s[1..]; }
        }
      }
    }
  }

  lemma {:induction false} SplitChars(s: string)
    ensures forall k, j :: 0 <= k < |Split(s)| && 0 <= j < |Split(s)[k]| ==> Split(s)[k][j] in s
  {
    if s != [] {
      SplitChars(s[1..]);
      var t := Split(s[1..]);
      forall k, j | 0 <= k < |Split(s)| && 0 <= j < |Split(s)[k]| ensures Split(s)[k][j] in s {
        if s[0] == ' ' {
          assert Split(s)[k] == t[k - 1];
          assert t[k - 1][j] in s[1..];
        } else if k == 0 {
          if j > 0 { assert Split(s)[0][j] == t[0][j - 1]; assert t[0][j - 1] in s[1..]; }
        } else {
          assert Split(s)[k] == t[k];
          assert t[k][j] in s[1..];
        }
      }
    }
  }

  lemma {:induction false} FlattenChars(ps: seq<string>, s: string)
    requires forall k :: 0 <= k < |ps| ==> ' ' !in ps[k]
    requires forall k, j :: 0 <= k < |ps| && 0 <= j < |ps[k]| ==> ps[k][j] in s
    ensures forall k :: 0 <= k < |Flatten(ps)| && Flatten(ps)[k].Ch? ==> Flatten(ps)[k].c in s && Flatten(ps)[k].c != ' '
  {
    if ps != [] {
      FlattenChars(ps[1..], s);
      var head := PieceTokens(ps[0]);
      var f := Flatten(ps);
      forall k | 0 <= k < |f| && f[k].Ch? ensures f[k].c in s && f[k].c != ' ' {
        if k < |head| {
          assert f[k] == head[k];
          assert ps[0] != [];
          assert ps[0][k] in s;
        } else {
          assert f[k] == Flatten(ps[1..])[k - |head|];
        }
      }
    }
  }

  /** In a text without capitals the id 0 marks exactly the blanks. */
  lemma {:induction false} BlankIds(original: string)
    requires forall k :: 0 <= k < |original| ==> !IsUpper(original[k])
    ensures |Labels(original)| == |Tokens(original)|
    ensures forall k :: 0 <= k < |Labels(original)| ==>
      (Labels(original)[k] == SpaceIndex <==> Tokens(original)[k] == Space)
  {
    TokenCharsFromText(original);
    var ts := Tokens(original);
    EncodeIds(ts);
    forall k | 0 <= k < |ts| && ts[k].Ch?
      ensures ts[k] != Ch('\U{042F}')
    {
      var j :| 0 <= j < |original| && original[j] == ts[k].c;
    }
  }

  /** On a normalised transcript the id 0 marks exactly the blanks. */
  lemma {:induction false} BlankIdsAreSpaces(text: string)
    ensures |Labels(CleanTranscript(text))| == |Tokens(CleanTranscript(text))|
    ensures forall k :: 0 <= k < |Labels(CleanTranscript(text))| ==>
      (Labels(CleanTranscript(text))[k] == SpaceIndex <==> Tokens(CleanTranscript(text))[k] == Space)
  {
    CleanTranscriptSpec(text);
    BlankIds(CleanTranscript(text));
  }

  /** The single-space correspondence: one id per character, 0 exactly at
      the spaces, the table id elsewhere. */
  lemma {:induction false} SingleSpacedLabels(original: string)
    requires SingleSpaced(original)
    requires forall k :: 0 <= k < |original| ==> !IsUpper(original[k])
    ensures |Labels(original)| == |original|
    ensures forall i :: 0 <= i < |original| ==> (Labels(original)[i] == 0 <==> original[i] == ' ')
    ensures forall i :: 0 <= i < |original| && original[i] != ' ' ==>
      Labels(original)[i] == TokenId(Ch(original[i]))
  {
    SingleSpacedTokens(original);
    EncodeIds(Tokens(original));
    BlankIds(original);
  }

  /** The same correspondence for the transcript the encoder produces. */
  lemma {:induction false} SingleSpacedTranscript(text: string)
    requires SingleSpaced(CleanTranscript(text))
    ensures |Labels(CleanTranscript(text))| == |CleanTranscript(text)|
    ensures forall i :: 0 <= i < |CleanTranscript(text)| ==>
      (Labels(CleanTranscript(text))[i] == 0 <==> CleanTranscript(text)[i] == ' ')
    ensures forall i :: 0 <= i < |CleanTranscript(text)| && CleanTranscript(text)[i] != ' ' ==>
      Labels(CleanTranscript(text))[i] == TokenId(Ch(CleanTranscript(text)[i]))
  {
    CleanTranscriptSpec(text);
    SingleSpacedLabels(CleanTranscript(text));
  }

  /** A transcript written in the alphabet (letters, io and spaces) gets
      ids in 0 .. 33 only. */
  lemma {:induction false} AlphabetLabels(original: string)
    requires forall k :: 0 <= k < |original| ==> original[k] == ' ' || IsLetter(original[k]) || original[k] == Yo
    ensures forall k :: 0 <= k < |Labels(original)| ==> 0 <= Labels(original)[k] <= 33
  {
    TokenCharsFromText(original);
    var ts := Tokens(original);
    EncodeIds(ts);
    forall k | 0 <= k < |ts| ensures 0 <= TokenId(ts[k]) <= 33 {
      if ts[k].Ch? {
        var j :| 0 <= j < |original| && original[j] == ts[k].c;
      }
    }
  }
}
