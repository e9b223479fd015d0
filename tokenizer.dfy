/** The Dutch word tokenizer `parseTokens` (services/utils.ts): noise removal, the IJ digraph and the
    ASCII letter filter. */
module Tokenizer {
  import opened Text

  type Token = string

  /** A token is one uppercase ASCII letter or the digraph "IJ". */
  predicate IsToken(t: Token) {
    t == "IJ" || (|t| == 1 && IsAsciiUpper(t[0]))
  }

  /** The characters matched by the regular expression class [\s\.\-]: ECMAScript white space and line
      terminators, the full stop and the hyphen. */
  predicate IsNoise(c: char) {
    c == ' ' || c == '\t' || c == '\n' || c == '\r' || c == '\U{000B}' || c == '\U{000C}'
    || c == '\U{00A0}' || c == '\U{1680}' || ('\U{2000}' <= c <= '\U{200A}')
    || c == '\U{2028}' || c == '\U{2029}' || c == '\U{202F}' || c == '\U{205F}'
    || c == '\U{3000}' || c == '\U{FEFF}'
    || c == '.' || c == '-'
  }

  predicate IsI(c: char) { c == 'i' || c == 'I' }

  predicate IsJ(c: char) { c == 'j' || c == 'J' }

  /** `text.replace(/[\s\.\-]/g, '')`. */
  function Clean(text: string): string {
    if text == [] then []
    else if IsNoise(text[0]) then Clean(text[1..])
    else [text[0]] + Clean(text[1..])
  }

  /** Reference definition of the scan over the cleaned characters: an i/I followed by j/J becomes one
      "IJ" token, every other character is kept, uppercased, only when it is an ASCII letter. */
  function Scan(s: string): seq<Token> {
    if s == [] then []
    else if |s| >= 2 && IsI(s[0]) && IsJ(s[1]) then ["IJ"] + Scan(s[2..])
    else if IsAsciiUpper(UpperChar(s[0])) then [[UpperChar(s[0])]] + Scan(s[1..])
    else Scan(s[1..])
  }

  /** The tokens of a raw word. */
  function Tokenize(text: string): seq<Token> {
    Scan(Clean(text))
  }

  /** Cleaning keeps exactly the characters that are not noise, so it never lengthens the text. */
  lemma {:induction false} CleanFacts(text: string)
    ensures |Clean(text)| <= |text|
    ensures forall c :: c in Clean(text) <==> c in text && !IsNoise(c)
  {
    if text != [] {
      CleanFacts(text[1..]);
      assert text == [text[0]] + text[1..];
    }
  }

  /** The scan emits at most one token per character, and every token is well formed. */
  lemma {:induction false} ScanFacts(s: string)
    ensures |Scan(s)| <= |s|
    ensures forall k :: 0 <= k < |Scan(s)| ==> IsToken(Scan(s)[k])
  {
    if s != [] {
      if |s| >= 2 && IsI(s[0]) && IsJ(s[1]) {
        ScanFacts(s[2..]);
      } else {
        ScanFacts(s[1..]);
      }
    }
  }

  /** Every token is one uppercase ASCII letter or "IJ", and there are at most as many tokens as
      input characters. */
  lemma TokenizeFacts(text: string)
    ensures |Tokenize(text)| <= |text|
    ensures forall k :: 0 <= k < |Tokenize(text)| ==> IsToken(Tokenize(text)[k])
  {
    CleanFacts(text);
    ScanFacts(Clean(text));
  }

  /** `parseTokens`: the loop of utils.ts, whose index is bumped a second time inside the body when a
      digraph is taken. */
  method ParseTokens(text: string) returns (result: seq<Token>)
    ensures result == Tokenize(text)
    ensures |result| <= |text|
    ensures forall k :: 0 <= k < |result| ==> IsToken(result[k])
  {
    result := [];
    var chars := Clean(text);
    var i := 0;
    while i < |chars|
      invariant 0 <= i <= |chars|
      invariant result + Scan(chars[i..]) == Scan(chars)
    {
      var c := chars[i];
      if IsI(c) && i + 1 < |chars| && IsJ(chars[i + 1]) {
        assert chars[i..][2..] == chars[i + 2..];
        result := result + ["IJ"];
        i := i + 1;
      } else {
        assert chars[i..][1..] == chars[i + 1..];
        var upper := UpperChar(c);
        if IsAsciiUpper(upper) {
          result := result + [[upper]];
        }
      }
      i := i + 1;
    }
    assert chars[i..] == [];
    TokenizeFacts(text);
  }

  // ---------------------------------------------------------------------------------------------
  // Properties of the tokenizer

  /** Concatenation of a token sequence. */
  function Concat(ts: seq<Token>): string {
    if ts == [] then [] else ts[0] + Concat(ts[1..])
  }

  /** The ASCII letters of a string, in order. */
  function Letters(s: string): string {
    if s == [] then [] else if IsAsciiLetter(s[0]) then [s[0]] + Letters(s[1..]) else Letters(s[1..])
  }

  lemma {:induction false} ConcatAppend(a: seq<Token>, b: seq<Token>)
    ensures Concat(a + b) == Concat(a) + Concat(b)
  {
    if a == [] {
      assert a + b == b;
    } else {
      assert (a + b)[0] == a[0];
      assert (a + b)[1..] == a[1..] + b;
      ConcatAppend(a[1..], b);
      calc {
        Concat(a + b);
        a[0] + Concat(a[1..] + b);
        a[0] + (Concat(a[1..]) + Concat(b));
        (a[0] + Concat(a[1..])) + Concat(b);
      }
    }
  }

  lemma ConcatCons(t: Token, ts: seq<Token>)
    ensures Concat([t] + ts) == t + Concat(ts)
  {
    assert ([t] + ts)[1..] == ts;
  }

  lemma {:induction false} ScanSpellsLetters(s: string)
    ensures Concat(Scan(s)) == Upper(Letters(s))
  {
    if s != [] {
      if |s| >= 2 && IsI(s[0]) && IsJ(s[1]) {
        ScanSpellsLetters(s[2..]);
        assert s[1..][1..] == s[2..];
        assert Letters(s) == [s[0], s[1]] + Letters(s[2..]);
        UpperAppend([s[0], s[1]], Letters(s[2..]));
        ConcatCons("IJ", Scan(s[2..]));
      } else {
        ScanSpellsLetters(s[1..]);
        if IsAsciiLetter(s[0]) {
          UpperAppend([s[0]], Letters(s[1..]));
          ConcatCons([UpperChar(s[0])], Scan(s[1..]));
        }
      }
    }
  }

  lemma {:induction false} CleanKeepsLetters(s: string)
    ensures Letters(Clean(s)) == Letters(s)
  {
    if s != [] {
      CleanKeepsLetters(s[1..]);
      if !IsNoise(s[0]) {
        assert ([s[0]] + Clean(s[1..]))[1..] == Clean(s[1..]);
      }
    }
  }

  /** The tokens spell out the input's ASCII letters, uppercased, and nothing else. */
  lemma TokensSpellLetters(text: string)
    ensures Concat(Tokenize(text)) == Upper(Letters(text))
  {
    ScanSpellsLetters(Clean(text));
    CleanKeepsLetters(text);
  }

  /** Scanning splits at any boundary that is not followed by j/J: no digraph straddles it. */
  lemma {:induction false} ScanAppend(a: string, b: string)
    requires b == [] || !IsJ(b[0])
    ensures Scan(a + b) == Scan(a) + Scan(b)
  {
    if a == [] {
      assert a + b == b;
    } else if |a| >= 2 && IsI(a[0]) && IsJ(a[1]) {
      assert (a + b)[2..] == a[2..] + b;
      ScanAppend(a[2..], b);
    } else {
      assert (a + b)[1..] == a[1..] + b;
      ScanAppend(a[1..], b);
      if |a| == 1 {
        assert (a + b)[0] == a[0];
        assert !(|a + b| >= 2 && IsI((a + b)[0]) && IsJ((a + b)[1]));
      }
    }
  }

  /** An i/I immediately followed by j/J in the cleaned text yields exactly one "IJ" token, whatever
      surrounds it. */
  lemma DigraphMerged(a: string, i: char, j: char, b: string)
    requires IsI(i) && IsJ(j)
    ensures Scan(a + [i, j] + b) == Scan(a) + ["IJ"] + Scan(b)
  {
    ScanAppend(a, [i, j] + b);
    assert ([i, j] + b)[2..] == b;
    assert a + [i, j] + b == a + ([i, j] + b);
  }

  lemma {:induction false} CleanAppend(a: string, b: string)
    ensures Clean(a + b) == Clean(a) + Clean(b)
  {
    if a == [] {
      assert a + b == b;
    } else {
      assert (a + b)[1..] == a[1..] + b;
      CleanAppend(a[1..], b);
    }
  }

  lemma {:induction false} CleanIdempotent(s: string)
    ensures Clean(Clean(s)) == Clean(s)
  {
    if s != [] {
      CleanIdempotent(s[1..]);
      if !IsNoise(s[0]) {
        assert ([s[0]] + Clean(s[1..]))[1..] == Clean(s[1..]);
      }
    }
  }

  /** White space, full stops and hyphens never affect the result: removing them first changes
      nothing, and neither does inserting one anywhere. */
  lemma NoiseIrrelevant(a: string, n: char, b: string)
    requires IsNoise(n)
    ensures Tokenize(Clean(a + b)) == Tokenize(a + b)
    ensures Tokenize(a + [n] + b) == Tokenize(a + b)
  {
    CleanIdempotent(a + b);
    CleanAppend(a + [n], b);
    CleanAppend(a, [n]);
    CleanAppend(a, b);
    assert Clean([n]) == [] by {
      assert [n][1..] == [];
    }
    assert Clean(a + [n]) == Clean(a);
    assert Clean(a + [n] + b) == Clean(a + b);
  }

  /** "I J" is the two-character digraph spelled with a space. */
  lemma SpacedDigraph()
    ensures Tokenize("I J") == ["IJ"]
  {
    assert Clean("I J") == "IJ" by {
      assert "I J"[1..] == " J";
      assert " J"[1..] == "J";
      assert "J"[1..] == "";
    }
    assert "IJ"[2..] == [];
  }

  /** Letters are never noise, and case mapping leaves every other character alone. */
  lemma NoiseIgnoresCase(c: char)
    ensures IsNoise(LowerChar(c)) == IsNoise(c)
    ensures IsNoise(UpperChar(c)) == IsNoise(c)
  {
    if IsAsciiLetter(c) {
      assert !IsNoise(c) && !IsNoise(LowerChar(c)) && !IsNoise(UpperChar(c));
    }
  }

  lemma {:induction false} CleanCommutesWithCase(s: string)
    ensures Clean(Lower(s)) == Lower(Clean(s))
    ensures Clean(Upper(s)) == Upper(Clean(s))
  {
    if s != [] {
      assert Lower(s)[1..] == Lower(s[1..]);
      assert Upper(s)[1..] == Upper(s[1..]);
      CleanCommutesWithCase(s[1..]);
      NoiseIgnoresCase(s[0]);
      assert Lower(s)[0] == LowerChar(s[0]) && Upper(s)[0] == UpperChar(s[0]);
      if !IsNoise(s[0]) {
        UpperAppend([s[0]], Clean(s[1..]));
      }
    }
  }

  lemma {:induction false} ScanIgnoresLower(s: string)
    ensures Scan(Lower(s)) == Scan(s)
  {
    if s != [] {
      assert Lower(s)[1..] == Lower(s[1..]);
      if |s| >= 2 {
        assert Lower(s)[2..] == Lower(s[2..]);
        ScanIgnoresLower(s[2..]);
      }
      ScanIgnoresLower(s[1..]);
    }
  }

  lemma {:induction false} ScanIgnoresUpper(s: string)
    ensures Scan(Upper(s)) == Scan(s)
  {
    if s != [] {
      assert Upper(s)[1..] == Upper(s[1..]);
      if |s| >= 2 {
        assert Upper(s)[2..] == Upper(s[2..]);
        ScanIgnoresUpper(s[2..]);
      }
      ScanIgnoresUpper(s[1..]);
    }
  }

  /** On the model's (ASCII) case mapping the result does not depend on letter case. */
  lemma CaseInsensitive(text: string)
    ensures Tokenize(Lower(text)) == Tokenize(text)
    ensures Tokenize(Upper(text)) == Tokenize(text)
  {
    CleanCommutesWithCase(text);
    ScanIgnoresLower(Clean(text));
    ScanIgnoresUpper(Clean(text));
  }

  /** On letters only, a "J" token can only come from a leading j/J. */
  lemma ScanHeadJ(s: string)
    requires forall k :: 0 <= k < |s| ==> IsAsciiLetter(s[k])
    requires |Scan(s)| > 0 && Scan(s)[0] == "J"
    ensures IsJ(s[0])
  {
  }

  lemma {:induction false} ScanNeverSplitsDigraph(s: string)
    requires forall k :: 0 <= k < |s| ==> IsAsciiLetter(s[k])
    ensures forall k :: 0 <= k < |Scan(s)| - 1 ==> !(Scan(s)[k] == "I" && Scan(s)[k + 1] == "J")
  {
    if s != [] {
      if |s| >= 2 && IsI(s[0]) && IsJ(s[1]) {
        ScanNeverSplitsDigraph(s[2..]);
      } else {
        var tail := s[1..];
        ScanNeverSplitsDigraph(tail);
        var r := Scan(s);
        assert r == [[UpperChar(s[0])]] + Scan(tail);
        if |r| >= 2 && r[0] == "I" {
          assert IsI(s[0]);
          assert !IsJ(s[1]);
          if r[1] == "J" {
            ScanHeadJ(tail);
          }
        }
      }
    }
  }

  /** A cleaned input made of letters never yields an "I" token immediately followed by a "J" token:
      the scan takes every digraph greedily. */
  lemma NoSplitDigraph(text: string)
    requires forall k :: 0 <= k < |Clean(text)| ==> IsAsciiLetter(Clean(text)[k])
    ensures forall k :: 0 <= k < |Tokenize(text)| - 1 ==>
              !(Tokenize(text)[k] == "I" && Tokenize(text)[k + 1] == "J")
  {
    ScanNeverSplitsDigraph(Clean(text));
  }
}
