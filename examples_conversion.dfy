/**
 * Worked inputs for the conversions: short inputs whose outputs have the
 * shapes the trait's doc comments show, and the inputs on which toCamelCase
 * fails.
 */
module ConversionExamples {
  import opened PhpStrings
  import opened Conversion

  lemma LowerCaseExample()
    ensures ToLowerCase("aB c") == "ab c"
  {
  }

  lemma UpperCaseExample()
    ensures ToUpperCase("aB c") == "AB C"
  {
  }

  lemma SentenceCaseExample()
    ensures ToSentenceCase("AB C") == "Ab c"
  {
  }

  lemma TitleCaseExample()
    ensures ToTitleCase("aB c") == "Ab C"
  {
  }

  lemma UnderscoresExample()
    ensures ToUnderscores("aB c") == "ab_c"
  {
  }

  /** Both the empty string and a string of spaces leave nothing to write index 0 of. */
  lemma CamelCaseFailures()
    ensures ToCamelCase("") == Failure(EmptyStringOffset)
    ensures ToCamelCase("  ") == Failure(EmptyStringOffset)
  {
  }

  /**
   * Three words, as in an input giving the doc comment's output
   * "loremIpsumDolor": the first word's first character is lowered, the other
   * words' first characters are raised, every other character keeps its case
   * and the spaces are gone.
   */
  lemma CamelCaseThreeWords(a: string, b: string, c: string)
    requires a != [] && b != [] && c != []
    requires NoWhiteSpace(a) && NoWhiteSpace(b) && NoWhiteSpace(c)
    ensures ToCamelCase(a + " " + b + " " + c)
      == Success(([LowerChar(a[0])] + a[1..]) + ([UpperChar(b[0])] + b[1..]) + ([UpperChar(c[0])] + c[1..]))
  {
    var first, second, third := [LowerChar(a[0])] + a[1..], [UpperChar(b[0])] + b[1..], [UpperChar(c[0])] + c[1..];
    calc {
      ToCamelCase(a + " " + b + " " + c);
      { AppendAssociates(a + " " + b, " ", c);
        AppendAssociates(a + " ", b, " " + c);
        AppendAssociates(b, " ", c); }
      ToCamelCase(a + " " + (b + " " + c));
      { CamelCaseLeadingWord(a, b + " " + c); }
      Success(first + CamelWords(b + " " + c, true));
      { CamelWordsJoin(b, c, true);
        CamelWordsOfWord(b, true);
        CamelWordsOfWord(c, true); }
      Success(first + (second + third));
      { AppendAssociates(first, second, third); }
      Success(first + second + third);
    }
  }

  /**
   * A two-word example under the default separator, for any two words that
   * keep a letter or digit (such as "Héllo" and "World!"): each word is
   * transliterated, lowered and stripped of everything but small letters and
   * digits, and one separator joins them.
   */
  lemma CleanUrlTwoWords(a: string, b: string)
    requires NoWhiteSpace(a) && NoWhiteSpace(b)
    requires LettersAndDigits(ToLowerCase(Transliterate(a))) != []
    requires LettersAndDigits(ToLowerCase(Transliterate(b))) != []
    ensures ToCleanUrl(a + " " + b, DefaultSeparator)
      == LettersAndDigits(ToLowerCase(Transliterate(a))) + DefaultSeparator + LettersAndDigits(ToLowerCase(Transliterate(b)))
  {
    var sep := DefaultSeparator;
    var wa, wb := LettersAndDigits(ToLowerCase(Transliterate(a))), LettersAndDigits(ToLowerCase(Transliterate(b)));
    calc {
      ToCleanUrl(a + " " + b, sep);
      { CleanWordsOfWord(a);
        CleanWordsOfWord(b);
        OneSpace();
        CleanUrlJoin(a, " ", b, sep); }
      ToCleanUrl(a, sep) + sep + ToCleanUrl(b, sep);
      { CleanUrlOfWord(a, sep);
        CleanUrlOfWord(b, sep); }
      wa + sep + wb;
    }
  }

  /** A single space is a run of spaces. */
  lemma OneSpace()
    ensures |" "| > 0 && ConsistsOf(" ", ' ')
  {
  }
}
