/**
 * The search command (`internal/search`): option checks, the text
 * normalisation every matcher applies, the per-item matching policy, the
 * aggregation of matches into a result list, and the author line printed
 * for each match. The regular expression is an uninterpreted predicate on
 * the normalised text; compiling one is a parameter.
 */
module Search {
  import opened Wrappers
  import opened Records
  import opened Store
  import opened Strings
  import Decimal

  // ---------------------------------------------------------------------
  // Normalisation: compatibility decomposition, removal of combining marks,
  // then the fixed letter substitution.

  /**
   * The compatibility decomposition of a character. Only the characters of
   * the normalisation examples are listed; every other character is taken
   * to be its own decomposition.
   */
  const Decompositions: map<char, string> := map[
    'ü' := "u\U{308}", 'Ç' := "C\U{327}", 'ą' := "a\U{328}", 'ń' := "n\U{301}",
    'ó' := "o\U{301}", 'ź' := "z\U{301}", 'Ó' := "O\U{301}", 'ä' := "a\U{308}",
    'ñ' := "n\U{303}", 'ö' := "o\U{308}", 'ÿ' := "y\U{308}", 'Ⅷ' := "VIII"]

  function Decomposition(c: char): string
  {
    if c in Decompositions then Decompositions[c] else [c]
  }

  predicate IsAsciiLetter(c: char)
  {
    'A' <= c <= 'Z' || 'a' <= c <= 'z'
  }

  /** Non-spacing marks: the block of combining diacritical marks. */
  predicate IsMark(c: char)
  {
    '\U{300}' <= c <= '\U{36F}'
  }

  /**
   * The letter substitution of `newMatcher`: barred O and L become plain,
   * in both cases. It changes exactly the barred letters, each into an
   * ASCII letter.
   */
  function Substitute(c: char): (r: char)
    ensures r != c <==> Barred(c)
    ensures Barred(c) ==> IsAsciiLetter(r)
  {
    match c
    case 'Ø' => 'O'
    case 'ø' => 'o'
    case 'Ł' => 'L'
    case 'ł' => 'l'
    case _ => c
  }

  /** The letters the substitution replaces. */
  predicate Barred(c: char)
  {
    c == 'Ø' || c == 'ø' || c == 'Ł' || c == 'ł'
  }

  function Decompose(s: string): string
  {
    if s == [] then [] else Decomposition(s[0]) + Decompose(s[1..])
  }

  function RemoveMarks(s: string): string
  {
    if s == [] then [] else (if IsMark(s[0]) then [] else [s[0]]) + RemoveMarks(s[1..])
  }

  function SubstituteAll(s: string): string
  {
    if s == [] then [] else [Substitute(s[0])] + SubstituteAll(s[1..])
  }

  /**
   * The transformation chain of a matcher: no combining mark and no barred
   * letter survives it.
   */
  function Normalize(s: string): (r: string)
    ensures forall i :: 0 <= i < |r| ==> !IsMark(r[i]) && !Barred(r[i])
  {
    var kept := RemoveMarks(Decompose(s));
    RemoveMarksKeeps(Decompose(s));
    SubstituteAllEach(kept);
    SubstituteAll(kept)
  }

  /** A character the normalisation leaves as it is. */
  predicate Clean(c: char)
  {
    Decomposition(c) == [c] && !IsMark(c) && Substitute(c) == c
  }

  /** Text the normalisation leaves as it is. */
  predicate Normalized(s: string)
  {
    forall i :: 0 <= i < |s| ==> Clean(s[i])
  }

  /** The normalisation of one character. */
  function NormalizeChar(c: char): string
  {
    SubstituteAll(RemoveMarks(Decomposition(c)))
  }

  /** A decomposition other than the character itself is made of ASCII letters and marks. */
  lemma DecompositionParts(c: char)
    ensures Decomposition(c) != [c] ==>
      forall i :: 0 <= i < |Decomposition(c)| ==> IsMark(Decomposition(c)[i]) || IsAsciiLetter(Decomposition(c)[i])
  {
  }

  /** Removing the marks keeps only characters of the text that are not marks. */
  lemma {:induction false} RemoveMarksKeeps(s: string)
    ensures forall i :: 0 <= i < |RemoveMarks(s)| ==> !IsMark(RemoveMarks(s)[i]) && RemoveMarks(s)[i] in s
  {
    if s != [] {
      RemoveMarksKeeps(s[1..]);
      var r := RemoveMarks(s);
      forall i | 0 <= i < |r| ensures !IsMark(r[i]) && r[i] in s {
        if !IsMark(s[0]) && i == 0 {
        } else {
          var k := if IsMark(s[0]) then i else i - 1;
          assert r[i] == RemoveMarks(s[1..])[k];
        }
      }
    }
  }

  /** The substitution works character by character. */
  lemma {:induction false} SubstituteAllEach(s: string)
    ensures |SubstituteAll(s)| == |s|
    ensures forall i :: 0 <= i < |s| ==> SubstituteAll(s)[i] == Substitute(s[i])
  {
    if s != [] {
      SubstituteAllEach(s[1..]);
    }
  }

  lemma {:induction false} RemoveMarksAppend(a: string, b: string)
    ensures RemoveMarks(a + b) == RemoveMarks(a) + RemoveMarks(b)
  {
    if a != [] {
      assert (a + b)[0] == a[0] && (a + b)[1..] == a[1..] + b;
      RemoveMarksAppend(a[1..], b);
    } else {
      assert a + b == b;
    }
  }

  lemma {:induction false} SubstituteAllAppend(a: string, b: string)
    ensures SubstituteAll(a + b) == SubstituteAll(a) + SubstituteAll(b)
  {
    if a != [] {
      assert (a + b)[0] == a[0] && (a + b)[1..] == a[1..] + b;
      SubstituteAllAppend(a[1..], b);
    } else {
      assert a + b == b;
    }
  }

  lemma {:induction false} DecomposeAppend(a: string, b: string)
    ensures Decompose(a + b) == Decompose(a) + Decompose(b)
  {
    if a != [] {
      assert (a + b)[0] == a[0] && (a + b)[1..] == a[1..] + b;
      DecomposeAppend(a[1..], b);
    } else {
      assert a + b == b;
    }
  }

  /** The chain works piece by piece. */
  lemma NormalizeAppend(a: string, b: string)
    ensures Normalize(a + b) == Normalize(a) + Normalize(b)
  {
    DecomposeAppend(a, b);
    RemoveMarksAppend(Decompose(a), Decompose(b));
    SubstituteAllAppend(RemoveMarks(Decompose(a)), RemoveMarks(Decompose(b)));
  }

  /** The chain works character by character. */
  lemma {:induction false} NormalizeCons(s: string)
    requires s != []
    ensures Normalize(s) == NormalizeChar(s[0]) + Normalize(s[1..])
  {
    RemoveMarksAppend(Decomposition(s[0]), Decompose(s[1..]));
    SubstituteAllAppend(RemoveMarks(Decomposition(s[0])), RemoveMarks(Decompose(s[1..])));
  }

  /** ASCII letters are clean. */
  lemma AsciiLetterClean(c: char)
    requires IsAsciiLetter(c)
    ensures Clean(c)
  {
  }

  /** Each character normalises to clean characters; a clean one to itself. */
  lemma NormalizeCharClean(c: char)
    ensures Normalized(NormalizeChar(c))
    ensures Clean(c) ==> NormalizeChar(c) == [c]
  {
    var d := Decomposition(c);
    var kept := RemoveMarks(d);
    SubstituteAllEach(kept);
    if d == [c] {
      assert d[1..] == [] && RemoveMarks(d[1..]) == [];
      assert kept == if IsMark(c) then [] else [c];
      if !IsMark(c) && Substitute(c) != c {
        AsciiLetterClean(Substitute(c));
      }
    } else {
      DecompositionParts(c);
      RemoveMarksKeeps(d);
      forall i | 0 <= i < |kept| ensures Clean(Substitute(kept[i])) {
        assert kept[i] in d;
        AsciiLetterClean(kept[i]);
      }
    }
  }

  /** The normalisation of any text is normalised. */
  lemma {:induction false} NormalizeIsNormalized(s: string)
    ensures Normalized(Normalize(s))
  {
    if s != [] {
      NormalizeCons(s);
      NormalizeCharClean(s[0]);
      NormalizeIsNormalized(s[1..]);
    }
  }

  /** Normalised text is left unchanged. */
  lemma {:induction false} NormalizedUnchanged(s: string)
    requires Normalized(s)
    ensures Normalize(s) == s
  {
    if s != [] {
      NormalizeCons(s);
      NormalizeCharClean(s[0]);
      NormalizedUnchanged(s[1..]);
      assert [s[0]] + s[1..] == s;
    }
  }

  /** Normalising twice is normalising once. */
  lemma NormalizeIdempotent(s: string)
    ensures Normalize(Normalize(s)) == Normalize(s)
  {
    NormalizeIsNormalized(s);
    NormalizedUnchanged(Normalize(s));
  }


  // The normalisation examples of the matcher's tests. Each is proved on a
  // text given character by character, in pieces: runs of at most eight
  // characters the normalisation keeps, and single characters it changes.
  // The literal statement then follows from the character-wise one.

  /** The characters of the examples that the normalisation keeps. */
  predicate Plain(c: char)
  {
    IsAsciiLetter(c) || c == ' '
  }

  lemma {:induction false} PlainStep(s: string)
    requires s != [] && Plain(s[0])
    ensures Normalize(s) == [s[0]] + Normalize(s[1..])
  {
    assert Clean(s[0]);
    NormalizeCharClean(s[0]);
    NormalizeCons(s);
  }

  /** ASCII letters and spaces pass through the normalisation unchanged, whatever the length of the text. */
  lemma PlainRun(s: string)
    requires forall i :: 0 <= i < |s| ==> Plain(s[i])
    ensures Normalize(s) == s
  {
    forall i | 0 <= i < |s| ensures Clean(s[i]) {
      if s[i] != ' ' {
        AsciiLetterClean(s[i]);
      }
    }
    NormalizedUnchanged(s);
  }

  /**
   * The same for a piece of an example, given character by character. The
   * length cap only keeps the literal examples cheap to check; `PlainRun`
   * is the general statement.
   */
  lemma {:induction false} PlainPiece(s: string)
    requires |s| <= 8
    requires (|s| > 0 ==> Plain(s[0])) && (|s| > 1 ==> Plain(s[1]))
    requires (|s| > 2 ==> Plain(s[2])) && (|s| > 3 ==> Plain(s[3]))
    requires (|s| > 4 ==> Plain(s[4])) && (|s| > 5 ==> Plain(s[5]))
    requires (|s| > 6 ==> Plain(s[6])) && (|s| > 7 ==> Plain(s[7]))
    ensures Normalize(s) == s
  {
    if s != [] {
      PlainStep(s);
      PlainPiece(s[1..]);
      assert [s[0]] + s[1..] == s;
    }
  }

  /** A single character normalises to what its table entry gives. */
  lemma NormalizeSingle(s: string, c: char, o: string)
    requires |s| == 1 && s[0] == c && NormalizeChar(c) == o
    ensures Normalize(s) == o
  {
    NormalizeCons(s);
    assert s[1..] == [];
  }

  /** A letter with one combining mark normalises to the bare letter. */
  lemma NormalizeMarked(s: string, c: char, letter: char, mark: char)
    requires |s| == 1 && s[0] == c
    requires c in Decompositions && Decompositions[c] == [letter, mark]
    requires IsMark(mark) && !IsMark(letter) && !Barred(letter)
    ensures Normalize(s) == [letter]
  {
    var d := [letter, mark];
    assert RemoveMarks(d) == [letter] by {
      assert d[1..] == [mark];
      assert RemoveMarks([mark]) == [] by { assert [mark][1..] == []; }
      assert [letter] + [] == [letter];
    }
    assert SubstituteAll([letter]) == [letter] by { assert [letter][1..] == []; }
    NormalizeSingle(s, c, [letter]);
  }

  /** The Roman numeral eight decomposes into four ASCII letters. */
  lemma NormalizeNumeralEight(s: string)
    requires |s| == 1 && s[0] == 'Ⅷ'
    ensures Normalize(s) == "VIII"
  {
    assert Decomposition('Ⅷ') == "VIII";
    NormalizeSingle(s, 'Ⅷ', "VIII");
  }

  /** A barred letter has no decomposition and normalises to its plain letter. */
  lemma NormalizeBarred(s: string, c: char)
    requires |s| == 1 && s[0] == c
    requires Barred(c) && c !in Decompositions
    ensures Normalize(s) == [Substitute(c)]
  {
    assert !IsMark(c);
    assert RemoveMarks([c]) == [c] by { assert [c][1..] == []; }
    assert SubstituteAll([c]) == [Substitute(c)] by { assert [c][1..] == []; }
    NormalizeSingle(s, c, [Substitute(c)]);
  }

  lemma NormalizeGunterCedillePieces(p0: string, p1: string, p2: string, p3: string, p4: string)
    requires |p0| == 1 && p0[0] == 'G'
    requires |p1| == 1 && p1[0] == 'ü'
    requires |p2| == 5 && p2[0] == 'n' && p2[1] == 't' && p2[2] == 'e' && p2[3] == 'r' && p2[4] == ' '
    requires |p3| == 1 && p3[0] == 'Ç'
    requires |p4| == 6 && p4[0] == 'e' && p4[1] == 'd' && p4[2] == 'i' && p4[3] == 'l' && p4[4] == 'l' && p4[5] == 'e'
    ensures Normalize(p0 + p1 + p2 + p3 + p4) == "Gunter Cedille"
  {
    PlainPiece(p0);
    NormalizeMarked(p1, 'ü', 'u', '\U{308}');
    PlainPiece(p2);
    NormalizeMarked(p3, 'Ç', 'C', '\U{327}');
    PlainPiece(p4);
    NormalizeAppend(p0, p1);
    NormalizeAppend(p0 + p1, p2);
    NormalizeAppend(p0 + p1 + p2, p3);
    NormalizeAppend(p0 + p1 + p2 + p3, p4);
  }

  lemma NormalizeGunterCedille()
    ensures Normalize("Günter Çedille") == "Gunter Cedille"
  {
    NormalizeGunterCedillePieces("G", "ü", "nter ", "Ç", "edille");
    assert "Günter Çedille" == "G" + "ü" + "nter " + "Ç" + "edille";
  }

  lemma NormalizePolishPieces(p0: string, p1: string, p2: string, p3: string, p4: string)
    requires |p0| == 5 && p0[0] == 'J' && p0[1] == 'a' && p0[2] == 'n' && p0[3] == ' ' && p0[4] == 'M'
    requires |p1| == 1 && p1[0] == 'ą'
    requires |p2| == 3 && p2[0] == 'c' && p2[1] == 'z' && p2[2] == 'y'
    requires |p3| == 1 && p3[0] == 'ń'
    requires |p4| == 3 && p4[0] == 's' && p4[1] == 'k' && p4[2] == 'i'
    ensures Normalize(p0 + p1 + p2 + p3 + p4) == "Jan Maczynski"
  {
    PlainPiece(p0);
    NormalizeMarked(p1, 'ą', 'a', '\U{328}');
    PlainPiece(p2);
    NormalizeMarked(p3, 'ń', 'n', '\U{301}');
    PlainPiece(p4);
    NormalizeAppend(p0, p1);
    NormalizeAppend(p0 + p1, p2);
    NormalizeAppend(p0 + p1 + p2, p3);
    NormalizeAppend(p0 + p1 + p2 + p3, p4);
  }

  lemma NormalizePolish()
    ensures Normalize("Jan Mączyński") == "Jan Maczynski"
  {
    NormalizePolishPieces("Jan M", "ą", "czy", "ń", "ski");
    assert "Jan Mączyński" == "Jan M" + "ą" + "czy" + "ń" + "ski";
  }

  lemma NormalizeThree(a: string, b: string, c: string, x: string, y: string, z: string)
    requires Normalize(a) == x && Normalize(b) == y && Normalize(c) == z
    ensures Normalize(a + b + c) == x + y + z
  {
    NormalizeAppend(a, b);
    NormalizeAppend(a + b, c);
  }

  lemma NormalizeLodzPieces(p0: string, p1: string, p2: string, p3: string)
    requires |p0| == 1 && p0[0] == 'Ł'
    requires |p1| == 1 && p1[0] == 'ó'
    requires |p2| == 1 && p2[0] == 'd'
    requires |p3| == 1 && p3[0] == 'ź'
    ensures Normalize(p0 + p1 + p2 + p3) == "Lodz"
  {
    NormalizeBarred(p0, 'Ł');
    NormalizeMarked(p1, 'ó', 'o', '\U{301}');
    PlainPiece(p2);
    NormalizeMarked(p3, 'ź', 'z', '\U{301}');
    NormalizeAppend(p0, p1);
    NormalizeAppend(p0 + p1, p2);
    NormalizeAppend(p0 + p1 + p2, p3);
  }

  lemma NormalizeUniversityPieces(p0: string, p1: string, q0: string, q1: string, q2: string, q3: string)
    requires |p0| == 8 && p0[0] == 'U' && p0[1] == 'n' && p0[2] == 'i' && p0[3] == 'v' && p0[4] == 'e' && p0[5] == 'r' && p0[6] == 's' && p0[7] == 'i'
    requires |p1| == 6 && p1[0] == 't' && p1[1] == 'y' && p1[2] == ' ' && p1[3] == 'o' && p1[4] == 'f' && p1[5] == ' '
    requires |q0| == 1 && q0[0] == 'Ł'
    requires |q1| == 1 && q1[0] == 'ó'
    requires |q2| == 1 && q2[0] == 'd'
    requires |q3| == 1 && q3[0] == 'ź'
    ensures Normalize(p0 + p1 + (q0 + q1 + q2 + q3)) == "University of Lodz"
  {
    PlainPiece(p0);
    PlainPiece(p1);
    NormalizeLodzPieces(q0, q1, q2, q3);
    NormalizeThree(p0, p1, q0 + q1 + q2 + q3, p0, p1, "Lodz");
  }

  lemma NormalizeUniversity()
    ensures Normalize("University of Łódź") == "University of Lodz"
  {
    NormalizeUniversityPieces("Universi", "ty of ", "Ł", "ó", "d", "ź");
    assert "University of Łódź" == "Universi" + "ty of " + ("Ł" + "ó" + "d" + "ź");
  }

  lemma NormalizeBarredO()
    ensures Normalize("Ø") == "O"
  {
    NormalizeBarred("Ø", 'Ø');
  }

  lemma NormalizeAcuteO()
    ensures Normalize("Ó") == "O"
  {
    NormalizeMarked("Ó", 'Ó', 'O', '\U{301}');
  }

  lemma NormalizeUmlautsPieces(p0: string, p1: string, p2: string, p3: string, p4: string, p5: string, p6: string, p7: string, p8: string)
    requires |p0| == 1 && p0[0] == 'ä'
    requires |p1| == 1 && p1[0] == ' '
    requires |p2| == 1 && p2[0] == 'ñ'
    requires |p3| == 1 && p3[0] == ' '
    requires |p4| == 1 && p4[0] == 'ö'
    requires |p5| == 1 && p5[0] == ' '
    requires |p6| == 1 && p6[0] == 'ü'
    requires |p7| == 1 && p7[0] == ' '
    requires |p8| == 1 && p8[0] == 'ÿ'
    ensures Normalize(p0 + p1 + p2 + p3 + p4 + p5 + p6 + p7 + p8) == "a n o u y"
  {
    NormalizeMarked(p0, 'ä', 'a', '\U{308}');
    PlainPiece(p1);
    NormalizeMarked(p2, 'ñ', 'n', '\U{303}');
    PlainPiece(p3);
    NormalizeMarked(p4, 'ö', 'o', '\U{308}');
    PlainPiece(p5);
    NormalizeMarked(p6, 'ü', 'u', '\U{308}');
    PlainPiece(p7);
    NormalizeMarked(p8, 'ÿ', 'y', '\U{308}');
    NormalizeAppend(p0, p1);
    NormalizeAppend(p0 + p1, p2);
    NormalizeAppend(p0 + p1 + p2, p3);
    NormalizeAppend(p0 + p1 + p2 + p3, p4);
    NormalizeAppend(p0 + p1 + p2 + p3 + p4, p5);
    NormalizeAppend(p0 + p1 + p2 + p3 + p4 + p5, p6);
    NormalizeAppend(p0 + p1 + p2 + p3 + p4 + p5 + p6, p7);
    NormalizeAppend(p0 + p1 + p2 + p3 + p4 + p5 + p6 + p7, p8);
  }

  lemma NormalizeUmlauts()
    ensures Normalize("ä ñ ö ü ÿ") == "a n o u y"
  {
    NormalizeUmlautsPieces("ä", " ", "ñ", " ", "ö", " ", "ü", " ", "ÿ");
    assert "ä ñ ö ü ÿ" == "ä" + " " + "ñ" + " " + "ö" + " " + "ü" + " " + "ÿ";
  }

  lemma NormalizeRomanNumeralPieces(p0: string, p1: string)
    requires |p0| == 6 && p0[0] == 'H' && p0[1] == 'e' && p0[2] == 'n' && p0[3] == 'r' && p0[4] == 'y' && p0[5] == ' '
    requires |p1| == 1 && p1[0] == 'Ⅷ'
    ensures Normalize(p0 + p1) == "Henry VIII"
  {
    PlainPiece(p0);
    NormalizeNumeralEight(p1);
    NormalizeAppend(p0, p1);
  }

  lemma NormalizeRomanNumeral()
    ensures Normalize("Henry Ⅷ") == "Henry VIII"
  {
    NormalizeRomanNumeralPieces("Henry ", "Ⅷ");
    assert "Henry Ⅷ" == "Henry " + "Ⅷ";
  }

  // ---------------------------------------------------------------------
  // Matching.

  /** A compiled regular expression, as the set of normalised texts it matches somewhere. */
  type Pattern = string -> bool

  /** `matcher.match`: the pattern is tried on the normalised content. */
  function Match(re: Pattern, content: string): bool
  {
    re(Normalize(content))
  }

  /** Matching sees only the normalised text: a text and its normalisation match alike. */
  lemma MatchNormalized(re: Pattern, s: string)
    ensures Match(re, Normalize(s)) == Match(re, s)
  {
    NormalizeIdempotent(s);
  }

  /** Accents do not matter: the first normalisation example matches exactly where its plain spelling does. */
  lemma MatchIgnoresAccents(re: Pattern)
    ensures Match(re, "Günter Çedille") == Match(re, "Gunter Cedille")
  {
    NormalizeGunterCedille();
    PlainGunterCedille();
  }

  lemma PlainGunterCedille()
    ensures Normalize("Gunter Cedille") == "Gunter Cedille"
  {
    PlainSpelling("Gunter C", "edille");
    assert "Gunter C" + "edille" == "Gunter Cedille";
  }

  lemma PlainSpelling(p0: string, p1: string)
    requires |p0| == 8 && p0[0] == 'G' && p0[1] == 'u' && p0[2] == 'n' && p0[3] == 't'
    requires p0[4] == 'e' && p0[5] == 'r' && p0[6] == ' ' && p0[7] == 'C'
    requires |p1| == 6 && p1[0] == 'e' && p1[1] == 'd' && p1[2] == 'i' && p1[3] == 'l' && p1[4] == 'l' && p1[5] == 'e'
    ensures Normalize(p0 + p1) == p0 + p1
  {
    PlainPiece(p0);
    PlainPiece(p1);
    NormalizeAppend(p0, p1);
  }

  /** Some creator's first or last name matches. */
  predicate AuthorsMatch(re: Pattern, authors: seq<Creator>)
  {
    exists i :: 0 <= i < |authors| && (Match(re, authors[i].firstName) || Match(re, authors[i].lastName))
  }

  /** `matchAuthors`: stops at the first creator whose first or last name matches. */
  method MatchAuthors(re: Pattern, authors: seq<Creator>) returns (found: bool)
    ensures found <==> AuthorsMatch(re, authors)
    ensures authors == [] ==> !found
  {
    for i := 0 to |authors|
      invariant forall j :: 0 <= j < i ==> !Match(re, authors[j].firstName) && !Match(re, authors[j].lastName)
    {
      if Match(re, authors[i].firstName) || Match(re, authors[i].lastName) {
        return true;
      }
    }
    return false;
  }

  /** The command's flags: `-abs`, `-auth`, `-s` and `-j`. */
  datatype Flags = Flags(abstractToo: bool, authorsToo: bool, caseSensitive: bool, jobs: nat)

  /** `matchItem`: the title always counts, the abstract with `-abs`, the creators with `-auth`. */
  function MatchItem(flags: Flags, re: Pattern, item: Item): (matched: bool)
    ensures matched <==>
      Match(re, item.title)
      || (flags.abstractToo && Match(re, item.abstractNote))
      || (flags.authorsToo && AuthorsMatch(re, item.creators))
  {
    var match_ := Match(re, item.title);
    if flags.abstractToo then
      if flags.authorsToo then match_ || Match(re, item.abstractNote) || AuthorsMatch(re, item.creators)
      else match_ || Match(re, item.abstractNote)
    else if flags.authorsToo then match_ || AuthorsMatch(re, item.creators)
    else match_
  }

  // ---------------------------------------------------------------------
  // Option checks of `Run`.

  /** Go's `int(u)` for a 64-bit `uint`: values from 2^63 on turn negative. */
  function ToInt(u: nat): int
    requires u < Decimal.Uint64Bound
  {
    if u < 0x8000_0000_0000_0000 then u else u - Decimal.Uint64Bound
  }

  /** The job-count check: the count, read back as an `int`, must lie between 1 and the number of CPUs. */
  function JobsAccepted(jobs: nat, numCPU: nat): (ok: bool)
    requires jobs < Decimal.Uint64Bound && numCPU < 0x8000_0000_0000_0000
    ensures ok <==> 1 <= jobs <= numCPU
  {
    var par := ToInt(jobs);
    !(par < 1 || par > numCPU)
  }

  /** The text handed to the regexp compiler: case-insensitive unless `-s` is given. */
  function PatternText(search: string, caseSensitive: bool): (text: string)
    ensures !caseSensitive ==> text == "(?i)" + search
    ensures caseSensitive ==> text == search
  {
    var reFlags := if !caseSensitive then "i" else "";
    if reFlags != "" then "(?" + reFlags + ")" + search else search
  }

  // ---------------------------------------------------------------------
  // Aggregation.

  /** The matched items, in library order. */
  function Matched(flags: Flags, re: Pattern, items: seq<Item>): (r: seq<Item>)
    ensures forall x :: x in r ==> x in items && MatchItem(flags, re, x)
    ensures forall i :: 0 <= i < |items| && MatchItem(flags, re, items[i]) ==> items[i] in r
    ensures |r| <= |items|
  {
    if items == [] then []
    else
      var init := items[..|items| - 1];
      assert forall i :: 0 <= i < |init| ==> init[i] == items[i];
      Matched(flags, re, init) + (if MatchItem(flags, re, items[|items| - 1]) then [items[|items| - 1]] else [])
  }

  /** The positions of the matching items, in increasing order. */
  ghost function MatchingIndices(flags: Flags, re: Pattern, items: seq<Item>): (idx: seq<nat>)
    ensures forall k :: 0 <= k < |idx| ==> idx[k] < |items|
    ensures forall k, l :: 0 <= k < l < |idx| ==> idx[k] < idx[l]
    ensures forall i :: 0 <= i < |items| ==> (i in idx <==> MatchItem(flags, re, items[i]))
  {
    if items == [] then []
    else
      var n := |items| - 1;
      var init := items[..n];
      assert forall i :: 0 <= i < n ==> init[i] == items[i];
      MatchingIndices(flags, re, init) + (if MatchItem(flags, re, items[n]) then [n] else [])
  }

  /**
   * The matches are the matching items in library order, each as often as
   * it occurs: the `k`-th match is the item at the `k`-th matching position.
   */
  lemma {:induction false} MatchedInOrder(flags: Flags, re: Pattern, items: seq<Item>)
    ensures |Matched(flags, re, items)| == |MatchingIndices(flags, re, items)|
    ensures forall k :: 0 <= k < |Matched(flags, re, items)| ==>
      Matched(flags, re, items)[k] == items[MatchingIndices(flags, re, items)[k]]
  {
    if items != [] {
      var n := |items| - 1;
      var init := items[..n];
      MatchedInOrder(flags, re, init);
      var r, r0 := Matched(flags, re, items), Matched(flags, re, init);
      var idx, idx0 := MatchingIndices(flags, re, items), MatchingIndices(flags, re, init);
      forall k | 0 <= k < |r| ensures r[k] == items[idx[k]] {
        if k < |r0| {
          assert r[k] == r0[k] && idx[k] == idx0[k] && init[idx0[k]] == items[idx0[k]];
        }
      }
    }
  }

  /** The result entries of one matched item: one per attachment, without content type. */
  function Entries(item: Item): (r: seq<SearchResultsItem>)
    ensures |r| == |item.attachments|
    ensures forall i :: 0 <= i < |r| ==>
      r[i] == SearchResultsItem(item.attachments[i].key, item.attachments[i].filename, "")
  {
    seq(|item.attachments|, i requires 0 <= i < |item.attachments| =>
      SearchResultsItem(item.attachments[i].key, item.attachments[i].filename, ""))
  }

  /** The entries of several items, item after item. */
  function Expand(items: seq<Item>): seq<SearchResultsItem>
  {
    if items == [] then [] else Expand(items[..|items| - 1]) + Entries(items[|items| - 1])
  }

  /** The number of attachments of several items. */
  function AttachmentCount(items: seq<Item>): nat
  {
    if items == [] then 0 else AttachmentCount(items[..|items| - 1]) + |items[|items| - 1].attachments|
  }

  /** There are as many entries as attachments. */
  lemma {:induction false} ExpandCount(items: seq<Item>)
    ensures |Expand(items)| == AttachmentCount(items)
  {
    if items != [] {
      ExpandCount(items[..|items| - 1]);
    }
  }

  lemma {:induction false} ExpandAppend(a: seq<Item>, b: seq<Item>)
    ensures Expand(a + b) == Expand(a) + Expand(b)
  {
    if b != [] {
      assert (a + b)[..|a + b| - 1] == a + b[..|b| - 1];
      ExpandAppend(a, b[..|b| - 1]);
    }
    else {
      assert a + b == a;
    }
  }

  lemma {:induction false} MatchedAppend(flags: Flags, re: Pattern, a: seq<Item>, b: seq<Item>)
    ensures Matched(flags, re, a + b) == Matched(flags, re, a) + Matched(flags, re, b)
  {
    if b != [] {
      assert (a + b)[..|a + b| - 1] == a + b[..|b| - 1];
      MatchedAppend(flags, re, a, b[..|b| - 1]);
    } else {
      assert a + b == a;
    }
  }

  /** The matcher jobs, run one after the other over the library's items. */
  method MatchAll(flags: Flags, re: Pattern, items: seq<Item>) returns (matched: seq<Item>)
    ensures matched == Matched(flags, re, items)
  {
    matched := [];
    for i := 0 to |items|
      invariant matched == Matched(flags, re, items[..i])
    {
      assert items[..i + 1][..i] == items[..i];
      if MatchItem(flags, re, items[i]) {
        matched := matched + [items[i]];
      }
    }
    assert items[..|items|] == items;
  }

  /**
   * The printer job: for each item it receives, one entry per attachment,
   * counted by `i`. The result carries the search term.
   */
  method Collect(term: string, matched: seq<Item>) returns (res: SearchResults, i: nat)
    ensures res.term == term
    ensures res.items == Expand(matched)
    ensures i == |res.items| == AttachmentCount(matched)
  {
    res := SearchResults(term, []);
    i := 0;
    for m := 0 to |matched|
      invariant res.term == term
      invariant res.items == Expand(matched[..m]) && i == |res.items|
    {
      var item := matched[m];
      assert matched[..m + 1][..m] == matched[..m];
      ghost var before := res.items;
      for a := 0 to |item.attachments|
        invariant res.term == term
        invariant res.items == before + Entries(item)[..a] && i == |res.items|
      {
        var attach := item.attachments[a];
        res := res.(items := res.items + [SearchResultsItem(attach.key, attach.filename, "")]);
        i := i + 1;
        assert Entries(item)[..a + 1] == Entries(item)[..a] + [Entries(item)[a]];
      }
      assert Entries(item)[..|item.attachments|] == Entries(item);
    }
    assert matched[..|matched|] == matched;
    ExpandCount(matched);
  }

  // ---------------------------------------------------------------------
  // Any schedule of the matcher jobs yields the same entries.

  /** The items handed to matcher `j`, when item `i` goes to matcher `owner[i]`. */
  function Assigned<T>(items: seq<T>, owner: seq<nat>, j: nat): seq<T>
    requires |owner| == |items|
  {
    if items == [] then []
    else Assigned(items[..|items| - 1], owner[..|owner| - 1], j) + (if owner[|owner| - 1] == j then [items[|items| - 1]] else [])
  }

  /** The items of each of the first `n` matchers: the library dealt out by `owner`. */
  function Parts<T>(items: seq<T>, owner: seq<nat>, n: nat): (r: seq<seq<T>>)
    requires |owner| == |items|
    ensures |r| == n
  {
    if n == 0 then [] else Parts(items, owner, n - 1) + [Assigned(items, owner, n - 1)]
  }

  /** What each of the first `n` matchers sends to the printer, in its own order. */
  function Sent(flags: Flags, re: Pattern, items: seq<Item>, owner: seq<nat>, n: nat): (r: seq<seq<Item>>)
    requires |owner| == |items|
    ensures |r| == n
  {
    if n == 0 then [] else Sent(flags, re, items, owner, n - 1) + [Matched(flags, re, Assigned(items, owner, n - 1))]
  }

  /** All the items in the parts. */
  function Union<T>(parts: seq<seq<T>>): multiset<T>
  {
    if parts == [] then multiset{} else Union(parts[..|parts| - 1]) + multiset(parts[|parts| - 1])
  }

  /** The items dealt to one of the first `n` matchers. */
  function Dealt<T>(items: seq<T>, owner: seq<nat>, n: nat): multiset<T>
    requires |owner| == |items|
  {
    if items == [] then multiset{}
    else
      var here := if owner[|owner| - 1] < n then multiset{items[|items| - 1]} else multiset{};
      Dealt(items[..|items| - 1], owner[..|owner| - 1], n) + here
  }

  /** The matching items dealt to one of the first `n` matchers. */
  function Caught(flags: Flags, re: Pattern, items: seq<Item>, owner: seq<nat>, n: nat): multiset<Item>
    requires |owner| == |items|
  {
    if items == [] then multiset{}
    else
      var last := items[|items| - 1];
      var here := if owner[|owner| - 1] < n && MatchItem(flags, re, last) then multiset{last} else multiset{};
      Caught(flags, re, items[..|items| - 1], owner[..|owner| - 1], n) + here
  }

  lemma UnionSnoc<T>(parts: seq<seq<T>>, p: seq<T>)
    ensures Union(parts + [p]) == Union(parts) + multiset(p)
  {
    assert (parts + [p])[..|parts|] == parts;
  }

  lemma {:induction false} DealtNone<T>(items: seq<T>, owner: seq<nat>)
    requires |owner| == |items|
    ensures Dealt(items, owner, 0) == multiset{}
  {
    if items != [] {
      DealtNone(items[..|items| - 1], owner[..|owner| - 1]);
    }
  }

  /** Matcher `n` holds what the first `n + 1` matchers hold beyond the first `n`. */
  lemma {:induction false} DealtNext<T>(items: seq<T>, owner: seq<nat>, n: nat)
    requires |owner| == |items|
    ensures Dealt(items, owner, n + 1) == Dealt(items, owner, n) + multiset(Assigned(items, owner, n))
  {
    if items != [] {
      DealtNext(items[..|items| - 1], owner[..|owner| - 1], n);
    }
  }

  lemma {:induction false} UnionParts<T>(items: seq<T>, owner: seq<nat>, n: nat)
    requires |owner| == |items|
    ensures Union(Parts(items, owner, n)) == Dealt(items, owner, n)
  {
    if n == 0 {
      DealtNone(items, owner);
    } else {
      UnionParts(items, owner, n - 1);
      UnionSnoc(Parts(items, owner, n - 1), Assigned(items, owner, n - 1));
      DealtNext(items, owner, n - 1);
    }
  }

  /** When every owner is one of the first `n` matchers, every item is dealt. */
  lemma {:induction false} DealtAll<T>(items: seq<T>, owner: seq<nat>, n: nat)
    requires |owner| == |items| && forall i :: 0 <= i < |owner| ==> owner[i] < n
    ensures Dealt(items, owner, n) == multiset(items)
  {
    if items != [] {
      DealtAll(items[..|items| - 1], owner[..|owner| - 1], n);
      assert items == items[..|items| - 1] + [items[|items| - 1]];
    }
  }

  lemma {:induction false} CaughtNone(flags: Flags, re: Pattern, items: seq<Item>, owner: seq<nat>)
    requires |owner| == |items|
    ensures Caught(flags, re, items, owner, 0) == multiset{}
  {
    if items != [] {
      CaughtNone(flags, re, items[..|items| - 1], owner[..|owner| - 1]);
    }
  }

  /** Dropping the last item takes it out of its matcher's sends, when it matched. */
  lemma SentSnoc(flags: Flags, re: Pattern, items: seq<Item>, owner: seq<nat>, n: nat)
    requires |owner| == |items| && items != []
    ensures var last := items[|items| - 1];
      Matched(flags, re, Assigned(items, owner, n))
      == Matched(flags, re, Assigned(items[..|items| - 1], owner[..|owner| - 1], n))
         + (if owner[|owner| - 1] == n && MatchItem(flags, re, last) then [last] else [])
  {
    var last := items[|items| - 1];
    var a := Assigned(items[..|items| - 1], owner[..|owner| - 1], n);
    var tail: seq<Item> := if owner[|owner| - 1] == n then [last] else [];
    assert Assigned(items, owner, n) == a + tail;
    MatchedAppend(flags, re, a, tail);
    if tail != [] {
      assert tail[..0] == [];
    }
  }

  lemma Regroup<T>(whole: multiset<T>, front: multiset<T>, whole0: multiset<T>, front0: multiset<T>,
                   sent: multiset<T>, sent0: multiset<T>, here: multiset<T>, hit: multiset<T>)
    requires front == front0 + sent0
    requires whole == front + here + hit && whole0 == front0 + here
    requires sent == sent0 + hit
    ensures whole == whole0 + sent
  {
  }

  lemma {:induction false} CaughtNext(flags: Flags, re: Pattern, items: seq<Item>, owner: seq<nat>, n: nat)
    requires |owner| == |items|
    ensures Caught(flags, re, items, owner, n + 1)
      == Caught(flags, re, items, owner, n) + multiset(Matched(flags, re, Assigned(items, owner, n)))
  {
    if items != [] {
      var last := items[|items| - 1];
      var init, oinit := items[..|items| - 1], owner[..|owner| - 1];
      var hit: seq<Item> := if owner[|owner| - 1] == n && MatchItem(flags, re, last) then [last] else [];
      var here := if owner[|owner| - 1] < n && MatchItem(flags, re, last) then multiset{last} else multiset{};
      SentSnoc(flags, re, items, owner, n);
      CaughtNext(flags, re, init, oinit, n);
      Regroup(Caught(flags, re, items, owner, n + 1), Caught(flags, re, init, oinit, n + 1),
              Caught(flags, re, items, owner, n), Caught(flags, re, init, oinit, n),
              multiset(Matched(flags, re, Assigned(items, owner, n))),
              multiset(Matched(flags, re, Assigned(init, oinit, n))), here, multiset(hit));
    }
  }

  lemma {:induction false} UnionSent(flags: Flags, re: Pattern, items: seq<Item>, owner: seq<nat>, n: nat)
    requires |owner| == |items|
    ensures Union(Sent(flags, re, items, owner, n)) == Caught(flags, re, items, owner, n)
  {
    if n == 0 {
      CaughtNone(flags, re, items, owner);
    } else {
      UnionSent(flags, re, items, owner, n - 1);
      UnionSnoc(Sent(flags, re, items, owner, n - 1), Matched(flags, re, Assigned(items, owner, n - 1)));
      CaughtNext(flags, re, items, owner, n - 1);
    }
  }

  /** When every owner is one of the first `n` matchers, every match is caught. */
  lemma {:induction false} CaughtAll(flags: Flags, re: Pattern, items: seq<Item>, owner: seq<nat>, n: nat)
    requires |owner| == |items| && forall i :: 0 <= i < |owner| ==> owner[i] < n
    ensures Caught(flags, re, items, owner, n) == multiset(Matched(flags, re, items))
  {
    if items != [] {
      var last := items[|items| - 1];
      var init := items[..|items| - 1];
      CaughtAll(flags, re, init, owner[..|owner| - 1], n);
      assert Matched(flags, re, items)
        == Matched(flags, re, init) + (if MatchItem(flags, re, last) then [last] else []);
    }
  }

  /** Permuting the items permutes their entries. */
  lemma {:induction false} ExpandPermutation(a: seq<Item>, b: seq<Item>)
    requires multiset(a) == multiset(b)
    ensures multiset(Expand(a)) == multiset(Expand(b))
    decreases |a|
  {
    if a == [] {
      assert b == [] by { assert |multiset(b)| == 0; }
    } else {
      var x := a[|a| - 1];
      var init := a[..|a| - 1];
      assert a == init + [x];
      assert x in multiset(b);
      var k :| 0 <= k < |b| && b[k] == x;
      var pre, post := b[..k], b[k + 1..];
      assert b == pre + [x] + post;
      var rest := pre + post;
      assert multiset(init) == multiset(rest) by {
        Cancel(multiset(init), multiset(rest), x);
      }
      ExpandPermutation(init, rest);
      assert Expand([x]) == Entries(x) by { assert [x][..0] == []; }
      ExpandAppend(init, [x]);
      ExpandAppend(pre, [x]);
      ExpandAppend(pre + [x], post);
      ExpandAppend(pre, post);
      assert multiset(Expand(b)) == multiset(Expand(pre)) + multiset(Entries(x)) + multiset(Expand(post));
    }
  }

  lemma Cancel<T>(m: multiset<T>, n: multiset<T>, x: T)
    requires m + multiset{x} == n + multiset{x}
    ensures m == n
  {
    assert forall y :: m[y] == (m + multiset{x})[y] - (if y == x then 1 else 0);
  }

  /**
   * Whatever the number of jobs, however the items are dealt to the
   * matchers (`owner`) and however their sends are interleaved on the way
   * to the printer (`source` names the matcher each received item came
   * from, and each matcher's sends arrive in order), the printer's entries
   * are those of the sequential filter-then-expand, up to order.
   */
  lemma ScheduleIndependent(flags: Flags, re: Pattern, items: seq<Item>, par: nat, owner: seq<nat>,
                            received: seq<Item>, source: seq<nat>)
    requires |owner| == |items| && forall i :: 0 <= i < |owner| ==> owner[i] < par
    requires |source| == |received| && forall i :: 0 <= i < |source| ==> source[i] < par
    requires Parts(received, source, par) == Sent(flags, re, items, owner, par)
    ensures multiset(Expand(received)) == multiset(Expand(Matched(flags, re, items)))
  {
    UnionParts(received, source, par);
    DealtAll(received, source, par);
    UnionSent(flags, re, items, owner, par);
    CaughtAll(flags, re, items, owner, par);
    ExpandPermutation(received, Matched(flags, re, items));
  }

  // ---------------------------------------------------------------------
  // The author line printed after each matched title.

  /** The initial of a word: its first character and a full stop. */
  function Initial(word: string): string
    requires word != ""
  {
    [word[0]] + "."
  }

  /**
   * The loop of `authorInitials` as written: every word contributes its
   * initial, and an empty word, where `n[:1]` panics, aborts the whole
   * computation (`None`).
   */
  function InitialsOfAsWritten(words: seq<string>): (r: Option<seq<string>>)
    ensures r.Some? ==> |r.value| == |words|
  {
    if words == [] then Some([])
    else
      var last := words[|words| - 1];
      match InitialsOfAsWritten(words[..|words| - 1])
      case None => None
      case Some(init) => if last == "" then None else Some(init + [Initial(last)])
  }

  /**
   * `authorInitials` as written, on the words between single spaces: it
   * panics exactly when some word is empty, and otherwise agrees with the
   * corrected `Initials`.
   */
  function InitialsAsWritten(name: string): (r: Option<string>)
    ensures r.None? <==> exists i :: 0 <= i < |Split(name, ' ')| && Split(name, ' ')[i] == ""
    ensures r.Some? ==> r.value == Initials(name)
  {
    var words := Split(name, ' ');
    InitialsPanic(words);
    if InitialsOfAsWritten(words).None? then
      assert exists i :: 0 <= i < |Split(name, ' ')| && Split(name, ' ')[i] == "";
      None
    else
      InitialsOfAgree(words);
      Some(Join(InitialsOfAsWritten(words).value, " "))
  }

  /** The initials of the non-empty words, in order. */
  function InitialsOf(words: seq<string>): (r: seq<string>)
    ensures |r| <= |words|
  {
    if words == [] then []
    else
      var last := words[|words| - 1];
      InitialsOf(words[..|words| - 1]) + (if last == "" then [] else [Initial(last)])
  }

  /** The initials of a first name, skipping the empty words between repeated spaces. */
  function Initials(name: string): string
  {
    Join(InitialsOf(Split(name, ' ')), " ")
  }

  /** The code as written panics exactly when some word is empty. */
  lemma {:induction false} InitialsPanic(words: seq<string>)
    ensures InitialsOfAsWritten(words).None? <==> exists i :: 0 <= i < |words| && words[i] == ""
  {
    if words != [] {
      var init := words[..|words| - 1];
      InitialsPanic(init);
      if InitialsOfAsWritten(init).None? {
        var i :| 0 <= i < |init| && init[i] == "";
        assert words[i] == "";
      } else if words[|words| - 1] != "" {
        forall i | 0 <= i < |words|
          ensures words[i] != ""
        {
          if i < |init| {
            assert words[i] == init[i];
          }
        }
      }
    }
  }

  /** Where the code as written does not panic, it gives the corrected initials. */
  lemma {:induction false} InitialsOfAgree(words: seq<string>)
    requires InitialsOfAsWritten(words).Some?
    ensures InitialsOfAsWritten(words) == Some(InitialsOf(words))
  {
    if words != [] {
      InitialsOfAgree(words[..|words| - 1]);
    }
  }

  /** A name without spaces followed by one space makes `authorInitials` panic. */
  lemma TrailingSpacePanics(word: string)
    requires ' ' !in word
    ensures InitialsAsWritten(word + " ") == None
  {
    SplitAppend(word, "", ' ');
    assert word + [' '] + "" == word + " ";
    InitialsPanic([word, ""]);
    assert [word, ""][1] == "";
  }

  /** Two spaces between words make `authorInitials` panic. */
  lemma DoubleSpacePanics(first: string, rest: string)
    requires ' ' !in first
    ensures InitialsAsWritten(first + "  " + rest) == None
  {
    SplitAppend(first, " " + rest, ' ');
    assert first + [' '] + (" " + rest) == first + "  " + rest;
    SplitAppend("", rest, ' ');
    assert "" + [' '] + rest == " " + rest;
    var words := Split(first + "  " + rest, ' ');
    assert words[1] == "";
    InitialsPanic(words);
  }

  lemma JanTrailingSpacePanics()
    ensures InitialsAsWritten("Jan ") == None
  {
    TrailingSpacePanics("Jan");
    assert "Jan" + " " == "Jan ";
  }

  /** The corrected initials ignore a trailing space. */
  lemma TrailingSpaceIgnored(word: string)
    requires ' ' !in word
    ensures Initials(word + " ") == Initials(word)
  {
    SplitAppend(word, "", ' ');
    assert word + [' '] + "" == word + " ";
    SplitPlain(word, ' ');
    assert [word, ""][..1] == [word];
  }

  /** Initials of words free of `c` are free of `c`, unless `c` is the full stop. */
  lemma {:induction false} InitialsOfFree(words: seq<string>, c: char)
    requires c != '.'
    requires forall i :: 0 <= i < |words| ==> c !in words[i]
    ensures forall i :: 0 <= i < |InitialsOf(words)| ==> c !in InitialsOf(words)[i]
  {
    if words != [] {
      var init := words[..|words| - 1];
      assert forall i :: 0 <= i < |init| ==> init[i] == words[i];
      InitialsOfFree(init, c);
      var last := words[|words| - 1];
      if last != "" {
        assert last[0] in last;
        assert InitialsOf(words) == InitialsOf(init) + [Initial(last)];
      } else {
        assert InitialsOf(words) == InitialsOf(init);
      }
    }
  }

  /**
   * The initials split back at the spaces into one initial per non-empty
   * word of the name.
   */
  lemma InitialsWords(name: string)
    requires InitialsOf(Split(name, ' ')) != []
    ensures Split(Initials(name), ' ') == InitialsOf(Split(name, ' '))
  {
    InitialsOfFree(Split(name, ' '), ' ');
    SplitJoin(InitialsOf(Split(name, ' ')), ' ');
  }

  /** `authorInitials`, skipping empty words instead of panicking on them. */
  method AuthorInitials(name: string) returns (initials: string)
    ensures initials == Initials(name)
  {
    var words := Split(name, ' ');
    var parts: seq<string> := [];
    for k := 0 to |words|
      invariant parts == InitialsOf(words[..k])
    {
      if words[k] != "" {
        parts := parts + [words[k][..1] + "."];
        assert words[k][..1] + "." == Initial(words[k]);
      }
      assert words[..k + 1][..k] == words[..k];
    }
    assert words[..|words|] == words;
    initials := Join(parts, " ");
  }

  /** One creator as printed: the initials of a non-empty first name, then the last name. */
  function AuthorName(author: Creator): string
  {
    (if |author.firstName| > 0 then Initials(author.firstName) + " " else "") + author.lastName
  }

  /** The printed names, creator by creator. */
  function AuthorNames(authors: seq<Creator>): (r: seq<string>)
    ensures |r| == |authors|
    ensures forall i :: 0 <= i < |r| ==> r[i] == AuthorName(authors[i])
  {
    seq(|authors|, i requires 0 <= i < |authors| => AuthorName(authors[i]))
  }

  /** `authorsToString`: the printed names separated by ", ". */
  method AuthorsToString(authors: seq<Creator>) returns (s: string)
    ensures s == Join(AuthorNames(authors), ", ")
  {
    var names: seq<string> := [];
    for k := 0 to |authors|
      invariant names == AuthorNames(authors)[..k]
    {
      var author := authors[k];
      var initials := "";
      if |author.firstName| > 0 {
        initials := AuthorInitials(author.firstName);
        initials := initials + " ";
      }
      names := names + [initials + author.lastName];
    }
    assert AuthorNames(authors)[..|authors|] == AuthorNames(authors);
    s := Join(names, ", ");
  }

  /** Some creator's non-empty first name has an empty word, on which `authorInitials` as written panics. */
  predicate AuthorPanics(authors: seq<Creator>)
  {
    exists i :: 0 <= i < |authors| && |authors[i].firstName| > 0 && InitialsAsWritten(authors[i].firstName).None?
  }

  /**
   * `authorsToString` as written, over `authorInitials` as written: `None`
   * where the latter panics; otherwise the same line as the corrected one.
   */
  method AuthorsToStringAsWritten(authors: seq<Creator>) returns (s: Option<string>)
    ensures s.None? <==> AuthorPanics(authors)
    ensures s.Some? ==> s.value == Join(AuthorNames(authors), ", ")
  {
    var names: seq<string> := [];
    for k := 0 to |authors|
      invariant names == AuthorNames(authors)[..k]
      invariant forall j :: 0 <= j < k ==> !(|authors[j].firstName| > 0 && InitialsAsWritten(authors[j].firstName).None?)
    {
      var author := authors[k];
      var initials := "";
      if |author.firstName| > 0 {
        var written := InitialsAsWritten(author.firstName);
        if written.None? {
          return None;
        }
        initials := written.value + " ";
      }
      names := names + [initials + author.lastName];
    }
    assert AuthorNames(authors)[..|authors|] == AuthorNames(authors);
    s := Some(Join(names, ", "));
  }

  /** No creator, empty author line. */
  lemma AuthorsNone()
    ensures Join(AuthorNames([]), ", ") == ""
  {
  }

  /**
   * When no name holds a comma, the author line splits back at the commas
   * into one part per creator, each after the first behind its space.
   */
  lemma AuthorsSplit(authors: seq<Creator>)
    requires authors != []
    requires forall i :: 0 <= i < |authors| ==> ',' !in authors[i].firstName && ',' !in authors[i].lastName
    ensures Split(Join(AuthorNames(authors), ", "), ',') == Prefixed(AuthorNames(authors), ' ')
  {
    var names := AuthorNames(authors);
    forall i | 0 <= i < |names|
      ensures ',' !in names[i]
    {
      var first := authors[i].firstName;
      if |first| > 0 {
        SplitFree(first, ' ', ',');
        InitialsOfFree(Split(first, ' '), ',');
        JoinFree(InitialsOf(Split(first, ' ')), " ", ',');
      }
    }
    SplitCommaJoin(names);
  }

  // ---------------------------------------------------------------------
  // The command.

  /** Why `Run` dies: one kind per `Dief` call, the usage exit, and the printer's panic in `authorInitials`. */
  datatype Failure = Usage | JobCount | WrongSearch | LoadStorage | AuthorPanic | PersistSearch

  /** Printing the matches panics: some matched item has a creator on which `authorInitials` panics. */
  predicate PrintPanics(items: seq<Item>)
  {
    exists j :: 0 <= j < |items| && AuthorPanics(items[j].creators)
  }

  /**
   * The printer job's use of `authorsToString`: the line of every match
   * with creators; `panicked` when one of them panics, which ends the
   * process. The printing itself is not modelled.
   */
  method PrintMatches(matched: seq<Item>) returns (panicked: bool)
    ensures panicked <==> PrintPanics(matched)
  {
    for j := 0 to |matched|
      invariant forall i :: 0 <= i < j ==> !AuthorPanics(matched[i].creators)
    {
      if |matched[j].creators| > 0 {
        var line := AuthorsToStringAsWritten(matched[j].creators);
        if line.None? {
          return true;
        }
      }
    }
    return false;
  }

  /**
   * The checks `Run` makes before touching the storage, in their order: a
   * search term is required, the job count must be in range, and the
   * pattern text must compile (`compile` stands for `regexp.Compile`).
   */
  function Prepare(search: string, flags: Flags, numCPU: nat, compile: string -> Option<Pattern>): (r: Result<Pattern, Failure>)
    requires flags.jobs < Decimal.Uint64Bound && numCPU < 0x8000_0000_0000_0000
    ensures r == Err(Usage) <==> search == ""
    ensures r == Err(JobCount) <==> search != "" && !(1 <= flags.jobs <= numCPU)
    ensures r == Err(WrongSearch) <==>
      search != "" && 1 <= flags.jobs <= numCPU && compile(PatternText(search, flags.caseSensitive)).None?
    ensures r.Ok? <==>
      search != "" && 1 <= flags.jobs <= numCPU && compile(PatternText(search, flags.caseSensitive)).Some?
    ensures r.Ok? ==> compile(PatternText(search, flags.caseSensitive)) == Some(r.value)
  {
    if search == "" then Err(Usage)
    else if !JobsAccepted(flags.jobs, numCPU) then Err(JobCount)
    else
      match compile(PatternText(search, flags.caseSensitive))
      case None => Err(WrongSearch)
      case Some(re) => Ok(re)
  }

  /**
   * `Run` after flag parsing: the checks, loading the storage, the search
   * (sequentially; see `ScheduleIndependent` for the concurrent jobs), the
   * printing of the matches, and persisting the result. A failure ends the
   * command; `None` is success. A panic of the printer kills the process
   * before anything is saved; a failed save leaves the file as `fault`
   * says (see `AfterFault`).
   */
  method Run(storage: Storage, search: string, flags: Flags, numCPU: nat,
             compile: string -> Option<Pattern>, writeOk: bool, fault: Fault)
    returns (failure: Option<Failure>)
    requires flags.jobs < Decimal.Uint64Bound && numCPU < 0x8000_0000_0000_0000
    modifies storage
    ensures Prepare(search, flags, numCPU, compile).Err? ==>
      failure == Some(Prepare(search, flags, numCPU, compile).error)
      && storage.data == old(storage.data) && storage.disk == old(storage.disk)
    ensures Prepare(search, flags, numCPU, compile).Ok? && old(storage.disk).None? ==>
      failure == Some(LoadStorage) && storage.data == old(storage.data) && storage.disk == old(storage.disk)
    ensures Prepare(search, flags, numCPU, compile).Ok? && old(storage.disk).Some? ==>
      var loaded := old(storage.disk).value;
      var matched := Matched(flags, Prepare(search, flags, numCPU, compile).value, loaded.lib.items);
      (PrintPanics(matched) ==>
        failure == Some(AuthorPanic) && storage.data == loaded && storage.disk == old(storage.disk))
      && (!PrintPanics(matched) ==>
        storage.data == loaded.(search := Some(SearchResults(search, Expand(matched))))
        && (failure == None <==> writeOk)
        && (failure != None ==>
              failure == Some(PersistSearch) && storage.disk == AfterFault(old(storage.disk), storage.data, fault))
        && (failure == None ==> storage.disk == Some(storage.data)))
  {
    var prepared := Prepare(search, flags, numCPU, compile);
    if prepared.Err? {
      return Some(prepared.error);
    }
    var re := prepared.value;
    var loaded := storage.Load();
    if !loaded {
      return Some(LoadStorage);
    }
    var matched := MatchAll(flags, re, storage.data.lib.items);
    var panicked := PrintMatches(matched);
    if panicked {
      return Some(AuthorPanic);
    }
    var res, _ := Collect(search, matched);
    storage.data := storage.data.(search := Some(res));
    var ok := storage.Persist(writeOk, fault);
    if !ok {
      return Some(PersistSearch);
    }
    failure := None;
  }
}
