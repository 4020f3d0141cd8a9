/**
 * The Conversion trait of SimpleString: seven conversions of a string into a
 * new string.  Each trait method reads the wrapped string and hands the result
 * to a construction hook of its host class; here each one is a plain function
 * from the input string (and, for ToCleanUrl, the separator) to the result.
 */
module Conversion {
  import opened PhpStrings

  /** Why a conversion produced no string. */
  datatype Error =
    // `$camel[0] = ...` on an empty string: PHP 8 throws
    // "Cannot assign an empty string to a string offset".
    | EmptyStringOffset

  datatype Result<T> = Success(value: T) | Failure(error: Error)

  // ---------------------------------------------------------------------------
  // toLowerCase, toUpperCase
  // ---------------------------------------------------------------------------

  /** toLowerCase: exactly the ASCII capitals change, each to its small letter. */
  function ToLowerCase(s: string): (r: string)
    ensures |r| == |s|
    ensures forall i :: 0 <= i < |s| ==> !IsAsciiUpper(r[i])
    ensures forall i :: 0 <= i < |s| ==> (r[i] == s[i] <==> !IsAsciiUpper(s[i]))
    ensures forall i :: 0 <= i < |s| && IsAsciiUpper(s[i]) ==>
      IsAsciiLower(r[i]) && r[i] as int - 'a' as int == s[i] as int - 'A' as int
  {
    StrToLower(s)
  }

  /** toUpperCase: exactly the ASCII small letters change, each to its capital. */
  function ToUpperCase(s: string): (r: string)
    ensures |r| == |s|
    ensures forall i :: 0 <= i < |s| ==> !IsAsciiLower(r[i])
    ensures forall i :: 0 <= i < |s| ==> (r[i] == s[i] <==> !IsAsciiLower(s[i]))
    ensures forall i :: 0 <= i < |s| && IsAsciiLower(s[i]) ==>
      IsAsciiUpper(r[i]) && r[i] as int - 'A' as int == s[i] as int - 'a' as int
  {
    StrToUpper(s)
  }

  lemma LowerCaseIdempotent(s: string)
    ensures ToLowerCase(ToLowerCase(s)) == ToLowerCase(s)
  {
  }

  lemma UpperCaseIdempotent(s: string)
    ensures ToUpperCase(ToUpperCase(s)) == ToUpperCase(s)
  {
  }

  /** Lowering forgets any uppering done before it. */
  lemma LowerOfUpper(s: string)
    ensures ToLowerCase(ToUpperCase(s)) == ToLowerCase(s)
  {
    var up := ToUpperCase(s);
    forall i | 0 <= i < |s| ensures ToLowerCase(up)[i] == ToLowerCase(s)[i] {
      CaseMapFacts(s[i]);
    }
  }

  /** Uppering forgets any lowering done before it. */
  lemma UpperOfLower(s: string)
    ensures ToUpperCase(ToLowerCase(s)) == ToUpperCase(s)
  {
    var low := ToLowerCase(s);
    forall i | 0 <= i < |s| ensures ToUpperCase(low)[i] == ToUpperCase(s)[i] {
      CaseMapFacts(s[i]);
    }
  }

  // ---------------------------------------------------------------------------
  // toSentenceCase, toTitleCase, toUnderscores
  // ---------------------------------------------------------------------------

  /** toSentenceCase: ucfirst of the lowered string, so the first character uppered and every other one lowered. */
  function ToSentenceCase(s: string): (r: string)
    ensures |r| == |s|
    ensures |s| > 0 ==> r[0] == UpperChar(s[0])
    ensures forall i :: 0 < i < |s| ==> r[i] == LowerChar(s[i])
  {
    UpperOfLowerHead(s);
    Ucfirst(ToLowerCase(s))
  }

  /** Uppering the first character of the lowered string uppers the original one. */
  lemma UpperOfLowerHead(s: string)
    ensures |s| > 0 ==> UpperChar(ToLowerCase(s)[0]) == UpperChar(s[0])
  {
    if |s| > 0 {
      CaseMapFacts(s[0]);
    }
  }

  lemma SentenceCaseIdempotent(s: string)
    ensures ToSentenceCase(ToSentenceCase(s)) == ToSentenceCase(s)
  {
    var once := ToSentenceCase(s);
    var twice := ToSentenceCase(once);
    forall i | 0 <= i < |s| ensures twice[i] == once[i] {
      CaseMapFacts(s[i]);
    }
  }

  /** toTitleCase: ucwords of the lowered string. */
  function ToTitleCase(s: string): (r: string)
    ensures |r| == |s|
    ensures forall i :: 0 <= i < |s| ==>
      r[i] == if StartsWord(s, i) then UpperChar(s[i]) else LowerChar(s[i])
  {
    LowerKeepsWordStarts(s);
    Ucwords(ToLowerCase(s))
  }

  /** Lowering moves no word start, and uppering a lowered character uppers the original. */
  lemma LowerKeepsWordStarts(s: string)
    ensures forall i :: 0 <= i < |s| ==> StartsWord(ToLowerCase(s), i) == StartsWord(s, i)
    ensures forall i :: 0 <= i < |s| ==> UpperChar(ToLowerCase(s)[i]) == UpperChar(s[i])
  {
    forall i | 0 <= i < |s|
      ensures StartsWord(ToLowerCase(s), i) == StartsWord(s, i)
      ensures UpperChar(ToLowerCase(s)[i]) == UpperChar(s[i])
    {
      CaseMapFacts(s[i]);
      if i > 0 {
        CaseMapFacts(s[i - 1]);
      }
    }
  }

  lemma TitleCaseIdempotent(s: string)
    ensures ToTitleCase(ToTitleCase(s)) == ToTitleCase(s)
  {
    var once := ToTitleCase(s);
    var twice := ToTitleCase(once);
    forall i | 0 <= i < |s|
      ensures twice[i] == once[i]
    {
      if i > 0 {
        TitleCharStable(s[i - 1], StartsWord(s, i - 1));
      }
      assert StartsWord(once, i) == StartsWord(s, i);
      TitleCharStable(s[i], StartsWord(s, i));
    }
  }

  /** A character title casing has already mapped is mapped to itself, and white space stays white space. */
  lemma TitleCharStable(c: char, start: bool)
    ensures var x := if start then UpperChar(c) else LowerChar(c);
      (if start then UpperChar(x) else LowerChar(x)) == x && IsAsciiSpace(x) == IsAsciiSpace(c)
  {
    CaseMapFacts(c);
  }

  /** toUnderscores: the lowered string with every ' ' written as '_'. */
  function ToUnderscores(s: string): (r: string)
    ensures |r| == |s|
    ensures ' ' !in r
    ensures forall i :: 0 <= i < |s| ==> r[i] == if s[i] == ' ' then '_' else LowerChar(s[i])
  {
    var lower := ToLowerCase(s);
    StrReplaceCharByOne(' ', '_', lower);
    StrReplaceChar(' ', "_", lower)
  }

  // ---------------------------------------------------------------------------
  // toCamelCase
  // ---------------------------------------------------------------------------

  /**
   * An independent, one-pass reading of ucwords followed by deleting spaces:
   * every character other than ' ' is copied, uppered when it starts a word
   * (when `atWordStart` holds for the first one, when it follows one of the
   * six delimiters otherwise) and kept with its own case when it does not.
   */
  function CamelWords(s: string, atWordStart: bool): (r: string)
    ensures ' ' !in r
    ensures ToLowerCase(r) == ToLowerCase(StrReplaceChar(' ', [], s))
  {
    if s == [] then []
    else
      var rest := CamelWords(s[1..], IsAsciiSpace(s[0]));
      assert s == [s[0]] + s[1..];
      var head := if s[0] == ' ' then [] else [if atWordStart then UpperChar(s[0]) else s[0]];
      LowerAppend(head, rest);
      LowerAppend(if s[0] == ' ' then [] else [s[0]], StrReplaceChar(' ', [], s[1..]));
      head + rest
  }

  /** ucwords followed by deleting the spaces is the one-pass CamelWords. */
  lemma {:induction false} UcwordsThenDeleteSpaces(s: string, atWordStart: bool)
    ensures StrReplaceChar(' ', [], UcwordsFrom(s, atWordStart)) == CamelWords(s, atWordStart)
  {
    if s != [] {
      var x := if atWordStart then UpperChar(s[0]) else s[0];
      var rest := UcwordsFrom(s[1..], IsAsciiSpace(s[0]));
      var u := [x] + rest;
      assert u == UcwordsFrom(s, atWordStart);
      assert u[0] == x && u[1..] == rest;
      CaseMapFacts(s[0]);
      calc {
        StrReplaceChar(' ', [], u);
        (if x == ' ' then [] else [x]) + StrReplaceChar(' ', [], rest);
        { UcwordsThenDeleteSpaces(s[1..], IsAsciiSpace(s[0])); }
        (if x == ' ' then [] else [x]) + CamelWords(s[1..], IsAsciiSpace(s[0]));
        CamelWords(s, atWordStart);
      }
    }
  }

  /**
   * CamelWords works character by character: the part after a cut starts a
   * word exactly when the part before it ends in white space.
   */
  lemma CamelWordsAppend(a: string, b: string, atWordStart: bool)
    ensures CamelWords(a + b, atWordStart) ==
      CamelWords(a, atWordStart) + CamelWords(b, if a == [] then atWordStart else IsAsciiSpace(a[|a| - 1]))
  {
    var next := if a == [] then atWordStart else IsAsciiSpace(a[|a| - 1]);
    UcwordsThenDeleteSpaces(a + b, atWordStart);
    UcwordsThenDeleteSpaces(a, atWordStart);
    UcwordsThenDeleteSpaces(b, next);
    UcwordsFromAppend(a, b, atWordStart);
    StrReplaceCharAppend(' ', [], UcwordsFrom(a, atWordStart), UcwordsFrom(b, next));
  }

  /** On one character: ' ' is dropped, a word start is uppered, anything else is kept as it is. */
  lemma CamelWordsOne(c: char, atWordStart: bool)
    ensures CamelWords([c], atWordStart) == if c == ' ' then [] else [if atWordStart then UpperChar(c) else c]
  {
    assert [c][1..] == [];
  }

  /** Inside one word only the first character can change case; the others keep theirs. */
  lemma {:induction false} CamelWordsOfWord(w: string, atWordStart: bool)
    requires w != [] && NoWhiteSpace(w)
    ensures CamelWords(w, atWordStart) == [if atWordStart then UpperChar(w[0]) else w[0]] + w[1..]
  {
    if |w| > 1 {
      CamelWordsOfWord(w[1..], false);
    }
  }

  /** A ' ' after a word is dropped and makes the next character start a word. */
  lemma CamelWordsJoin(a: string, b: string, atWordStart: bool)
    requires a != []
    ensures CamelWords(a + " " + b, atWordStart) == CamelWords(a, atWordStart) + CamelWords(b, true)
  {
    CamelWordsAppend(a + " ", b, atWordStart);
    assert (a + " ")[|a + " "| - 1] == ' ';
    CamelWordsDropsTrailingSpace(a, atWordStart);
  }

  /** A trailing ' ' is dropped. */
  lemma CamelWordsDropsTrailingSpace(a: string, atWordStart: bool)
    ensures CamelWords(a + " ", atWordStart) == CamelWords(a, atWordStart)
  {
    CamelWordsAppend(a, " ", atWordStart);
    CamelWordsOne(' ', if a == [] then atWordStart else IsAsciiSpace(a[|a| - 1]));
  }

  /**
   * toCamelCase: ucwords of the ORIGINAL string, spaces deleted, the first
   * character lowered.  When nothing is left after deleting the spaces (the
   * input is "" or only spaces) the write to index 0 fails.
   */
  function ToCamelCase(s: string): (r: Result<string>)
    ensures r.Failure? <==> ConsistsOf(s, ' ')
    ensures r.Success? ==> |r.value| == |s| - multiset(s)[' ']
    ensures r.Success? ==> |r.value| > 0 && ' ' !in r.value && !IsAsciiUpper(r.value[0])
    ensures r.Success? ==> ToLowerCase(r.value) == ToLowerCase(StrReplaceChar(' ', [], s))
    ensures r.Success? ==> r.value == CamelWords(s, true)[0 := LowerChar(CamelWords(s, true)[0])]
  {
    var camel := StrReplaceChar(' ', [], Ucwords(s));
    DeleteSpacesAfterUcwords(s);
    if camel == [] then Failure(EmptyStringOffset)
    else
      LowerFirstThenLower(camel);
      Success(camel[0 := LowerChar(camel[0])])
  }

  /**
   * The case of every output position for input made of a word, a ' ' and
   * more text: the word keeps its case except for its lowered first
   * character, and the rest goes through CamelWords as a new word.
   */
  lemma CamelCaseLeadingWord(w: string, rest: string)
    requires w != [] && NoWhiteSpace(w)
    ensures ToCamelCase(w + " " + rest) == Success([LowerChar(w[0])] + w[1..] + CamelWords(rest, true))
  {
    var s := w + " " + rest;
    var tail := w[1..] + CamelWords(rest, true);
    var camel := CamelWords(s, true);
    assert camel == [UpperChar(w[0])] + tail by {
      CamelWordsLeadingWord(w, rest);
      AppendAssociates([UpperChar(w[0])], w[1..], CamelWords(rest, true));
    }
    assert ToCamelCase(s) == Success(camel[0 := LowerChar(camel[0])]) by {
      assert s[0] == w[0] && w[0] != ' ';
      CamelCaseLowersFirst(s);
    }
    assert LowerChar(camel[0]) == LowerChar(w[0]) by {
      CaseMapFacts(w[0]);
    }
    assert camel[0 := LowerChar(w[0])] == [LowerChar(w[0])] + tail by {
      ReplaceHead(UpperChar(w[0]), LowerChar(w[0]), tail);
    }
    assert [LowerChar(w[0])] + tail == [LowerChar(w[0])] + w[1..] + CamelWords(rest, true) by {
      AppendAssociates([LowerChar(w[0])], w[1..], CamelWords(rest, true));
    }
  }

  /** A string is its three parts around two cut points, put back together. */
  lemma CutInThree(t: string, lo: int, hi: int)
    requires 0 <= lo <= hi <= |t|
    ensures t == t[..lo] + t[lo..hi] + t[hi..]
  {
  }

  lemma AppendAssociates(a: string, b: string, c: string)
    ensures a + (b + c) == a + b + c
  {
  }

  /** Writing index 0 of a string replaces its first character. */
  lemma ReplaceHead(x: char, y: char, t: string)
    ensures ([x] + t)[0 := y] == [y] + t
  {
  }

  /** Input that does not start with ' ' gives CamelWords with its first character lowered. */
  lemma CamelCaseLowersFirst(s: string)
    requires s != [] && s[0] != ' '
    ensures CamelWords(s, true) != []
    ensures ToCamelCase(s) == Success(CamelWords(s, true)[0 := LowerChar(CamelWords(s, true)[0])])
  {
    assert !ConsistsOf(s, ' ');
  }

  /** Likewise inside CamelWords: a word followed by ' ' is copied with its first character uppered. */
  lemma CamelWordsLeadingWord(w: string, rest: string)
    requires w != [] && NoWhiteSpace(w)
    ensures CamelWords(w + " " + rest, true) == [UpperChar(w[0])] + w[1..] + CamelWords(rest, true)
  {
    CamelWordsOfWord(w, true);
    CamelWordsJoin(w, rest, true);
  }

  /** Lowering the first character first makes no difference to lowering all of them. */
  lemma LowerFirstThenLower(t: string)
    requires t != []
    ensures ToLowerCase(t[0 := LowerChar(t[0])]) == ToLowerCase(t)
  {
    var lowered := t[0 := LowerChar(t[0])];
    CaseMapFacts(t[0]);
    forall i | 0 <= i < |t| ensures ToLowerCase(lowered)[i] == ToLowerCase(t)[i] {
    }
  }

  /** What is left of ucwords(s) once the spaces are deleted, and when it is empty. */
  lemma DeleteSpacesAfterUcwords(s: string)
    ensures StrReplaceChar(' ', [], Ucwords(s)) == CamelWords(s, true)
    ensures StrReplaceChar(' ', [], Ucwords(s)) == [] <==> ConsistsOf(s, ' ')
    ensures |CamelWords(s, true)| == |s| - multiset(s)[' ']
  {
    UcwordsThenDeleteSpaces(s, true);
    UcwordsKeepsSpaces(s);
    CamelWordsLength(s);
  }

  /** ucwords leaves nothing but spaces exactly when it was given nothing but spaces. */
  lemma UcwordsKeepsSpaces(s: string)
    ensures StrReplaceChar(' ', [], Ucwords(s)) == [] <==> ConsistsOf(s, ' ')
  {
    var words := Ucwords(s);
    StrReplaceCharByNothingEmpty(' ', words);
    forall i | 0 <= i < |s|
      ensures words[i] == ' ' <==> s[i] == ' '
    {
      CaseMapFacts(s[i]);
    }
  }

  /** CamelWords drops exactly the spaces. */
  lemma CamelWordsLength(s: string)
    ensures |CamelWords(s, true)| == |s| - multiset(s)[' ']
  {
    StrReplaceCharByNothing(' ', s);
    assert |ToLowerCase(CamelWords(s, true))| == |ToLowerCase(StrReplaceChar(' ', [], s))|;
  }

  /** Lowering works character by character: it distributes over concatenation. */
  lemma LowerAppend(a: string, b: string)
    ensures ToLowerCase(a + b) == ToLowerCase(a) + ToLowerCase(b)
  {
    assert forall i :: 0 <= i < |a + b| ==>
      ToLowerCase(a + b)[i] == (ToLowerCase(a) + ToLowerCase(b))[i];
  }

  // ---------------------------------------------------------------------------
  // toCleanUrl
  // ---------------------------------------------------------------------------

  /**
   * The accent table of toCleanUrl, one case per key in the table's own order:
   * Some(value) for a key, None for every other character.
   */
  function Accent(c: char): Option<string> {
    match c
    case 'Š' => Some("S")
    case 'š' => Some("s")
    case 'Ð' => Some("Dj")
    case 'Ž' => Some("Z")
    case 'ž' => Some("z")
    case 'À' => Some("A")
    case 'Á' => Some("A")
    case 'Â' => Some("A")
    case 'Ã' => Some("A")
    case 'Ä' => Some("A")
    case 'Å' => Some("A")
    case 'Æ' => Some("A")
    case 'Ç' => Some("C")
    case 'È' => Some("E")
    case 'É' => Some("E")
    case 'Ê' => Some("E")
    case 'Ë' => Some("E")
    case 'Ì' => Some("I")
    case 'Í' => Some("I")
    case 'Î' => Some("I")
    case 'Ï' => Some("I")
    case 'Ñ' => Some("N")
    case 'Ò' => Some("O")
    case 'Ó' => Some("O")
    case 'Ô' => Some("O")
    case 'Õ' => Some("O")
    case 'Ö' => Some("O")
    case 'Ø' => Some("O")
    case 'Ù' => Some("U")
    case 'Ú' => Some("U")
    case 'Û' => Some("U")
    case 'Ü' => Some("U")
    case 'Ý' => Some("Y")
    case 'Þ' => Some("B")
    case 'ß' => Some("Ss")
    case 'à' => Some("a")
    case 'á' => Some("a")
    case 'â' => Some("a")
    case 'ã' => Some("a")
    case 'ä' => Some("a")
    case 'å' => Some("a")
    case 'æ' => Some("a")
    case 'ç' => Some("c")
    case 'è' => Some("e")
    case 'é' => Some("e")
    case 'ê' => Some("e")
    case 'ë' => Some("e")
    case 'ì' => Some("i")
    case 'í' => Some("i")
    case 'î' => Some("i")
    case 'ï' => Some("i")
    case 'ð' => Some("o")
    case 'ñ' => Some("n")
    case 'ò' => Some("o")
    case 'ó' => Some("o")
    case 'ô' => Some("o")
    case 'õ' => Some("o")
    case 'ö' => Some("o")
    case 'ø' => Some("o")
    case 'ù' => Some("u")
    case 'ú' => Some("u")
    case 'û' => Some("u")
    case 'ý' => Some("y")
    // 'ý' is listed a second time in the table, with the same value
    case 'þ' => Some("b")
    case 'ÿ' => Some("y")
    case 'ƒ' => Some("f")
    case _ => None
  }

  /** The separator toCleanUrl uses when none is given. */
  const DefaultSeparator: string := "-"

  /**
   * The table's keys are all outside ASCII, and each value is one or two
   * ASCII letters; only 'Ð' and 'ß' have two.
   */
  lemma AccentTableShape(k: char)
    ensures Accent(k).Some? ==> k as int >= 0x80
    ensures Accent(k).Some? ==> |Accent(k).value| == if k == 'Ð' || k == 'ß' then 2 else 1
    ensures Accent(k).Some? ==> AllAsciiLetters(Accent(k).value)
  {
    if k as int < 0x80 {
      assert Accent(k).None?;
    } else if Accent(k).Some? {
      AccentValues(k);
    }
  }

  /** The values of the table, one key at a time. */
  lemma AccentValues(k: char)
    requires Accent(k).Some?
    ensures |Accent(k).value| == if k == 'Ð' || k == 'ß' then 2 else 1
    ensures AllAsciiLetters(Accent(k).value)
  {
  }

  predicate AllAsciiLetters(s: string) {
    forall i :: 0 <= i < |s| ==> IsAsciiLetter(s[i])
  }

  /** Step 1 of toCleanUrl: strtr with the accent table. */
  function Transliterate(s: string): (r: string)
    ensures |r| == |s| + multiset(s)['Ð'] + multiset(s)['ß']
    ensures forall c :: c in r ==> IsAsciiLetter(c) || (c in s && Accent(c).None?)
    ensures forall c :: c in s && Accent(c).None? ==> c in r
  {
    StrtrAccentsLength(s);
    StrtrAccentsChars(s);
    Strtr(Accent, s)
  }

  /** What strtr with the accent table does to the length of `s`. */
  lemma {:induction false} StrtrAccentsLength(s: string)
    ensures |Strtr(Accent, s)| == |s| + multiset(s)['Ð'] + multiset(s)['ß']
  {
    if s != [] {
      StrtrAccentsLength(s[1..]);
      AccentImageLength(s[0]);
      assert s == [s[0]] + s[1..];
      assert multiset(s) == multiset{s[0]} + multiset(s[1..]);
    }
  }

  /** Only 'Ð' and 'ß' are written as two characters. */
  lemma AccentImageLength(c: char)
    ensures |Image(Accent, c)| == if c == 'Ð' || c == 'ß' then 2 else 1
  {
    AccentTableShape(c);
  }

  /** What strtr with the accent table does to the characters of `s`. */
  lemma {:induction false} StrtrAccentsChars(s: string)
    ensures forall c :: c in Strtr(Accent, s) ==> IsAsciiLetter(c) || (c in s && Accent(c).None?)
    ensures forall c :: c in s && Accent(c).None? ==> c in Strtr(Accent, s)
  {
    if s != [] {
      StrtrAccentsChars(s[1..]);
      AccentTableShape(s[0]);
      var head := Image(Accent, s[0]);
      var tail := Strtr(Accent, s[1..]);
      assert Strtr(Accent, s) == head + tail;
      assert forall c :: c in head ==> IsAsciiLetter(c) || (c == s[0] && Accent(c).None?);
      assert forall c :: c in s ==> c == s[0] || c in s[1..];
    }
  }

  /**
   * strtr scans once: what was written for one character is never read
   * again, so the result for a concatenation is the concatenation of the
   * results.
   */
  lemma TransliterateAppend(a: string, b: string)
    ensures Transliterate(a + b) == Transliterate(a) + Transliterate(b)
  {
    StrtrAppend(Accent, a, b);
  }

  /** A key of the table is written as its value, any other character as itself. */
  lemma TransliterateOne(c: char)
    ensures Transliterate([c]) == if Accent(c).Some? then Accent(c).value else [c]
  {
    assert [c][1..] == [];
  }

  /** The output of Transliterate holds no key of the table, so a second pass changes nothing. */
  lemma TransliterateIdempotent(s: string)
    ensures Transliterate(Transliterate(s)) == Transliterate(s)
  {
    var t := Transliterate(s);
    forall i | 0 <= i < |t| ensures Accent(t[i]).None? {
      AccentTableShape(t[i]);
      assert t[i] in t;
    }
  }

  /** What steps 1 to 5 of toCleanUrl may output: a small letter, a digit or white space. */
  predicate IsCleanChar(c: char) {
    IsAsciiLower(c) || IsAsciiDigit(c) || IsAsciiSpace(c)
  }

  /**
   * Steps 1 to 5 of toCleanUrl (everything before the separator is put in):
   * transliterate, lower, delete all but [a-zA-Z0-9\s], collapse runs of
   * spaces, trim.
   */
  function CleanWords(s: string): (r: string)
    ensures forall i :: 0 <= i < |r| ==> IsCleanChar(r[i])
    ensures NoDoubleSpace(r)
    ensures r == [] || (!IsTrimChar(r[0]) && !IsTrimChar(r[|r| - 1]))
    ensures forall c :: IsAsciiLower(c) || IsAsciiDigit(c) ==>
      multiset(r)[c] == multiset(ToLowerCase(Transliterate(s)))[c]
  {
    CleanWordsChars(s);
    CleanWordsKeepsLettersAndDigits(s);
    Trim(CollapseSpaces(KeepWordAndSpace(ToLowerCase(Transliterate(s)))))
  }

  /** Steps 2 to 5 leave only small letters, digits and white space. */
  lemma CleanWordsChars(s: string)
    ensures var r := Trim(CollapseSpaces(KeepWordAndSpace(ToLowerCase(Transliterate(s)))));
      forall i :: 0 <= i < |r| ==> IsCleanChar(r[i])
  {
    var lowered := ToLowerCase(Transliterate(s));
    var kept := KeepWordAndSpace(lowered);
    var collapsed := CollapseSpaces(kept);
    var r := Trim(collapsed);
    forall i | 0 <= i < |r|
      ensures IsCleanChar(r[i])
    {
      assert r[i] in collapsed;
      var j :| 0 <= j < |collapsed| && collapsed[j] == r[i];
      assert collapsed[j] in kept;
      assert r[i] in lowered && IsWordOrSpace(r[i]);
      var k :| 0 <= k < |lowered| && lowered[k] == r[i];
      assert !IsAsciiUpper(lowered[k]);
    }
  }

  /** Steps 3 to 5 lose no letter and no digit. */
  lemma CleanWordsKeepsLettersAndDigits(s: string)
    ensures var r := Trim(CollapseSpaces(KeepWordAndSpace(ToLowerCase(Transliterate(s)))));
      forall c :: IsAsciiLower(c) || IsAsciiDigit(c) ==>
        multiset(r)[c] == multiset(ToLowerCase(Transliterate(s)))[c]
  {
    FilterCollapseTrimCounts(ToLowerCase(Transliterate(s)));
  }

  /** Steps 3 to 5 on any string lose no letter and no digit. */
  lemma FilterCollapseTrimCounts(t: string)
    ensures forall c :: IsAsciiLetter(c) || IsAsciiDigit(c) ==>
      multiset(Trim(CollapseSpaces(KeepWordAndSpace(t))))[c] == multiset(t)[c]
  {
    var kept := KeepWordAndSpace(t);
    var collapsed := CollapseSpaces(kept);
    KeepWordAndSpaceCounts(t);
    CollapseSpacesCounts(kept);
    TrimCounts(collapsed);
    forall c | IsAsciiLetter(c) || IsAsciiDigit(c)
      ensures multiset(Trim(collapsed))[c] == multiset(t)[c]
    {
      assert IsWordOrSpace(c) && c != ' ' && !IsTrimChar(c);
      calc {
        multiset(Trim(collapsed))[c];
        multiset(collapsed)[c];
        multiset(kept)[c];
        multiset(t)[c];
      }
    }
  }

  /**
   * toCleanUrl: CleanWords with each remaining ' ' written as `separator`.
   */
  function ToCleanUrl(s: string, separator: string): (r: string)
    ensures s == [] ==> r == []
    ensures forall i :: 0 <= i < |r| ==>
      SurvivesCleaning(r[i]) || r[i] in separator
    ensures ' ' !in separator ==> ' ' !in r
    ensures NoAsciiUpper(separator) ==> NoAsciiUpper(r)
    ensures forall c :: (IsAsciiLower(c) || IsAsciiDigit(c)) && c !in separator ==>
      multiset(r)[c] == multiset(ToLowerCase(Transliterate(s)))[c]
  {
    CleanUrlFacts(s, separator);
    StrReplaceChar(' ', separator, CleanWords(s))
  }

  /** The facts ToCleanUrl promises, about its body. */
  lemma CleanUrlFacts(s: string, separator: string)
    ensures s == [] ==> StrReplaceChar(' ', separator, CleanWords(s)) == []
    ensures forall i :: 0 <= i < |StrReplaceChar(' ', separator, CleanWords(s))| ==>
      SurvivesCleaning(StrReplaceChar(' ', separator, CleanWords(s))[i]) ||
      StrReplaceChar(' ', separator, CleanWords(s))[i] in separator
    ensures ' ' !in separator ==> ' ' !in StrReplaceChar(' ', separator, CleanWords(s))
    ensures NoAsciiUpper(separator) ==> NoAsciiUpper(StrReplaceChar(' ', separator, CleanWords(s)))
    ensures forall c :: (IsAsciiLower(c) || IsAsciiDigit(c)) && c !in separator ==>
      multiset(StrReplaceChar(' ', separator, CleanWords(s)))[c] == multiset(ToLowerCase(Transliterate(s)))[c]
  {
    SeparatorChars(CleanWords(s), separator);
    CleanWordsOfEmpty(s);
    forall c | (IsAsciiLower(c) || IsAsciiDigit(c)) && c !in separator
      ensures multiset(StrReplaceChar(' ', separator, CleanWords(s)))[c] == multiset(ToLowerCase(Transliterate(s)))[c]
    {
      StrReplaceCharCounts(' ', separator, CleanWords(s), c);
    }
  }

  /** Writing the separator for each ' ' of CleanWords' output: where each character comes from. */
  lemma SeparatorChars(words: string, separator: string)
    requires forall i :: 0 <= i < |words| ==> IsCleanChar(words[i])
    ensures var r := StrReplaceChar(' ', separator, words);
      forall i :: 0 <= i < |r| ==>
        SurvivesCleaning(r[i]) || r[i] in separator
    ensures NoAsciiUpper(separator) ==> NoAsciiUpper(StrReplaceChar(' ', separator, words))
  {
    var r := StrReplaceChar(' ', separator, words);
    forall i | 0 <= i < |r|
      ensures SurvivesCleaning(r[i]) || r[i] in separator
      ensures r[i] in separator ==> exists j :: 0 <= j < |separator| && separator[j] == r[i]
    {
      assert r[i] in r;
      if r[i] !in separator {
        var j :| 0 <= j < |words| && words[j] == r[i];
      }
    }
  }

  lemma CleanWordsOfEmpty(s: string)
    ensures s == [] ==> CleanWords(s) == []
  {
    if s == [] {
      assert Transliterate(s) == [];
    }
  }

  /** A character that every step of toCleanUrl passes through unchanged. */
  predicate SurvivesCleaning(c: char) {
    IsAsciiLower(c) || IsAsciiDigit(c) || (IsAsciiSpace(c) && c != ' ')
  }

  /**
   * Cleaning a clean string changes nothing, as long as the separator is
   * made of characters that survive cleaning: small letters, digits and
   * white space other than ' '.  A separator of " " keeps idempotence as well
   * (SpaceSeparatorIdempotent); other separators holding ' ' are not covered.
   */
  lemma CleanUrlIdempotent(s: string, separator: string)
    requires forall i :: 0 <= i < |separator| ==> SurvivesCleaning(separator[i])
    ensures ToCleanUrl(ToCleanUrl(s, separator), separator) == ToCleanUrl(s, separator)
  {
    var once := ToCleanUrl(s, separator);
    CleanUrlSurvives(s, separator);
    CleanUrlEnds(s, separator);
    CleanWordsOfClean(once);
    CleanUrlOfClean(once, separator);
  }

  /**
   * A separator with a character that cleaning deletes or lowers (a capital,
   * a '-', any punctuation) breaks idempotence: wherever the first pass wrote
   * the separator, the second pass drops or lowers that character.
   */
  lemma CleanUrlNotIdempotent(s: string, separator: string)
    requires ' ' !in separator
    requires exists i :: 0 <= i < |separator| && !IsCleanChar(separator[i])
    requires ' ' in CleanWords(s)
    ensures ToCleanUrl(ToCleanUrl(s, separator), separator) != ToCleanUrl(s, separator)
  {
    var once := ToCleanUrl(s, separator);
    var i :| 0 <= i < |separator| && !IsCleanChar(separator[i]);
    StrReplaceCharWritesReplacement(' ', separator, CleanWords(s));
    assert separator[i] in once;
    CleanWordsAddsNoSpace(once);
    var words := CleanWords(once);
    assert ToCleanUrl(once, separator) == words;
    assert separator[i] !in words;
  }

  /**
   * With the default separator "-", cleaning is not idempotent: a string of
   * two or more words comes back from a second pass with its dashes deleted.
   */
  lemma DefaultSeparatorNotIdempotent(s: string)
    requires ' ' in CleanWords(s)
    ensures ToCleanUrl(ToCleanUrl(s, DefaultSeparator), DefaultSeparator) != ToCleanUrl(s, DefaultSeparator)
  {
    DefaultSeparatorIsDeleted();
    CleanUrlNotIdempotent(s, DefaultSeparator);
  }

  /** The default separator is one character that the class filter deletes, so cleaning never outputs it. */
  lemma DefaultSeparatorIsDeleted()
    ensures |DefaultSeparator| == 1 && !IsWordOrSpace(DefaultSeparator[0]) && !IsCleanChar(DefaultSeparator[0])
  {
  }

  /** The pipeline turns nothing into a space. */
  lemma CleanWordsAddsNoSpace(s: string)
    requires ' ' !in s
    ensures ' ' !in CleanWords(s)
  {
    var lowered := ToLowerCase(Transliterate(s));
    var kept := KeepWordAndSpace(lowered);
    var collapsed := CollapseSpaces(kept);
    assert ' ' !in Transliterate(s);
    assert ' ' !in lowered by {
      forall k | 0 <= k < |lowered| ensures lowered[k] != ' ' {
        CaseMapFacts(Transliterate(s)[k]);
        assert Transliterate(s)[k] in Transliterate(s);
      }
    }
    assert ' ' !in collapsed by {
      forall k | 0 <= k < |collapsed| ensures collapsed[k] != ' ' {
        assert collapsed[k] in kept;
      }
    }
  }

  /** A clean string without ' ' comes out of toCleanUrl unchanged. */
  lemma CleanUrlOfClean(s: string, separator: string)
    requires forall i :: 0 <= i < |s| ==> SurvivesCleaning(s[i])
    requires CleanWords(s) == s
    ensures ToCleanUrl(s, separator) == s
  {
    NoSpaceSurvives(s);
    calc {
      ToCleanUrl(s, separator);
      StrReplaceChar(' ', separator, CleanWords(s));
      StrReplaceChar(' ', separator, s);
      s;
    }
  }

  /** ' ' does not survive cleaning. */
  lemma NoSpaceSurvives(s: string)
    requires forall i :: 0 <= i < |s| ==> SurvivesCleaning(s[i])
    ensures ' ' !in s
  {
    forall i | 0 <= i < |s| ensures s[i] != ' ' {
      assert SurvivesCleaning(s[i]);
    }
  }

  /** With a surviving separator, every character of toCleanUrl's output survives cleaning. */
  lemma CleanUrlSurvives(s: string, separator: string)
    requires forall i :: 0 <= i < |separator| ==> SurvivesCleaning(separator[i])
    ensures forall i :: 0 <= i < |ToCleanUrl(s, separator)| ==> SurvivesCleaning(ToCleanUrl(s, separator)[i])
  {
    var once := ToCleanUrl(s, separator);
    forall i | 0 <= i < |once| ensures SurvivesCleaning(once[i]) {
      if once[i] in separator {
        var j :| 0 <= j < |separator| && separator[j] == once[i];
      }
    }
  }

  /** toCleanUrl's output starts and ends as CleanWords' does, so not with a trim character. */
  lemma CleanUrlEnds(s: string, separator: string)
    ensures var once := ToCleanUrl(s, separator);
      once == [] || (!IsTrimChar(once[0]) && !IsTrimChar(once[|once| - 1]))
  {
    var words := CleanWords(s);
    if words == [] {
      assert ToCleanUrl(s, separator) == [];
    }
  }

  /** A string made of surviving characters, not starting or ending with a trim character, is already clean. */
  lemma CleanWordsOfClean(s: string)
    requires forall i :: 0 <= i < |s| ==> SurvivesCleaning(s[i])
    requires s == [] || (!IsTrimChar(s[0]) && !IsTrimChar(s[|s| - 1]))
    ensures CleanWords(s) == s
  {
    calc {
      CleanWords(s);
      Trim(CollapseSpaces(KeepWordAndSpace(ToLowerCase(Transliterate(s)))));
      { TransliterateOfClean(s); }
      Trim(CollapseSpaces(KeepWordAndSpace(ToLowerCase(s))));
      { LowerOfClean(s); }
      Trim(CollapseSpaces(KeepWordAndSpace(s)));
      { KeepOfClean(s); }
      Trim(CollapseSpaces(s));
      { CollapseOfClean(s); }
      Trim(s);
    }
  }

  lemma TransliterateOfClean(s: string)
    requires forall i :: 0 <= i < |s| ==> IsCleanChar(s[i])
    ensures Transliterate(s) == s
  {
    forall i | 0 <= i < |s| ensures Accent(s[i]).None? {
      AccentTableShape(s[i]);
    }
  }

  lemma LowerOfClean(s: string)
    requires forall i :: 0 <= i < |s| ==> IsCleanChar(s[i])
    ensures ToLowerCase(s) == s
  {
  }

  lemma KeepOfClean(s: string)
    requires forall i :: 0 <= i < |s| ==> IsCleanChar(s[i])
    ensures KeepWordAndSpace(s) == s
  {
  }

  lemma CollapseOfClean(s: string)
    requires forall i :: 0 <= i < |s| ==> SurvivesCleaning(s[i])
    ensures CollapseSpaces(s) == s
  {
    assert NoDoubleSpace(s);
  }

  /**
   * With " " as the separator, cleaning is idempotent too: step 6 writes ' '
   * for ' ', and steps 1 to 5 leave their own output alone.
   */
  lemma SpaceSeparatorIdempotent(s: string)
    ensures ToCleanUrl(ToCleanUrl(s, " "), " ") == ToCleanUrl(s, " ")
  {
    var words := CleanWords(s);
    assert ToCleanUrl(s, " ") == words by {
      SpaceForSpace(words);
    }
    assert ToCleanUrl(words, " ") == words by {
      CleanWordsOfWords(words);
      SpaceForSpace(words);
    }
  }

  /** Replacing ' ' by " " changes nothing. */
  lemma SpaceForSpace(s: string)
    ensures StrReplaceChar(' ', " ", s) == s
  {
    StrReplaceCharByOne(' ', ' ', s);
  }

  /** Steps 1 to 5 leave their own output alone. */
  lemma CleanWordsOfWords(w: string)
    requires forall i :: 0 <= i < |w| ==> IsCleanChar(w[i])
    requires NoDoubleSpace(w)
    requires w == [] || (!IsTrimChar(w[0]) && !IsTrimChar(w[|w| - 1]))
    ensures CleanWords(w) == w
  {
    calc {
      CleanWords(w);
      Trim(CollapseSpaces(KeepWordAndSpace(ToLowerCase(Transliterate(w)))));
      { TransliterateOfClean(w); }
      Trim(CollapseSpaces(KeepWordAndSpace(ToLowerCase(w))));
      { LowerOfClean(w); }
      Trim(CollapseSpaces(KeepWordAndSpace(w)));
      { KeepOfClean(w); }
      Trim(CollapseSpaces(w));
      w;
    }
  }

  // ---------------------------------------------------------------------------
  // What toCleanUrl keeps of its input
  // ---------------------------------------------------------------------------

  /** The small ASCII letters and the digits of `s`, in their order in `s`. */
  function LettersAndDigits(s: string): (r: string)
    ensures forall i :: 0 <= i < |r| ==> IsAsciiLower(r[i]) || IsAsciiDigit(r[i])
    ensures (forall i :: 0 <= i < |s| ==> IsAsciiLower(s[i]) || IsAsciiDigit(s[i])) ==> r == s
  {
    if s == [] then []
    else (if IsAsciiLower(s[0]) || IsAsciiDigit(s[0]) then [s[0]] else []) + LettersAndDigits(s[1..])
  }

  lemma {:induction false} LettersAndDigitsAppend(a: string, b: string)
    ensures LettersAndDigits(a + b) == LettersAndDigits(a) + LettersAndDigits(b)
  {
    if a != [] {
      assert (a + b)[0] == a[0] && (a + b)[1..] == a[1..] + b;
      LettersAndDigitsAppend(a[1..], b);
      AppendAssociates(if IsAsciiLower(a[0]) || IsAsciiDigit(a[0]) then [a[0]] else [],
        LettersAndDigits(a[1..]), LettersAndDigits(b));
    } else {
      assert a + b == b;
    }
  }

  /** A string without small letters and digits has none to contribute. */
  lemma {:induction false} LettersAndDigitsOfNone(s: string)
    requires forall i :: 0 <= i < |s| ==> !IsAsciiLower(s[i]) && !IsAsciiDigit(s[i])
    ensures LettersAndDigits(s) == []
  {
    if s != [] {
      LettersAndDigitsOfNone(s[1..]);
    }
  }

  /** The class filter keeps every small letter and digit, in order. */
  lemma {:induction false} FilterKeepsLettersAndDigits(t: string)
    ensures LettersAndDigits(KeepWordAndSpace(t)) == LettersAndDigits(t)
  {
    if t != [] {
      var head := if IsWordOrSpace(t[0]) then [t[0]] else [];
      assert KeepWordAndSpace(t) == head + KeepWordAndSpace(t[1..]);
      LettersAndDigitsAppend(head, KeepWordAndSpace(t[1..]));
      FilterKeepsLettersAndDigits(t[1..]);
      if head == [] {
        assert head + KeepWordAndSpace(t[1..]) == KeepWordAndSpace(t[1..]);
      } else {
        assert [t[0]][1..] == [];
      }
    }
  }

  /** The space collapse keeps every small letter and digit, in order. */
  lemma {:induction false} CollapseKeepsLettersAndDigits(t: string)
    ensures LettersAndDigits(CollapseSpaces(t)) == LettersAndDigits(t)
  {
    if |t| > 1 {
      CollapseKeepsLettersAndDigits(t[1..]);
      if t[0] == ' ' && t[1] == ' ' {
        assert CollapseSpaces(t) == CollapseSpaces(t[1..]);
      } else {
        assert CollapseSpaces(t) == [t[0]] + CollapseSpaces(t[1..]);
        LettersAndDigitsAppend([t[0]], CollapseSpaces(t[1..]));
        assert [t[0]][1..] == [];
      }
    }
  }

  /** trim keeps every small letter and digit, in order. */
  lemma TrimKeepsLettersAndDigits(t: string)
    ensures LettersAndDigits(Trim(t)) == LettersAndDigits(t)
  {
    var lo, hi :| 0 <= lo <= hi <= |t| && Trim(t) == t[lo..hi] && EndsCut(t, lo, hi);
    CutEndsHaveNone(t, lo, hi);
    calc {
      LettersAndDigits(t);
      { CutInThree(t, lo, hi); }
      LettersAndDigits(t[..lo] + t[lo..hi] + t[hi..]);
      { LettersAndDigitsAppend(t[..lo] + t[lo..hi], t[hi..]);
        LettersAndDigitsAppend(t[..lo], t[lo..hi]); }
      LettersAndDigits(t[..lo]) + LettersAndDigits(t[lo..hi]) + LettersAndDigits(t[hi..]);
      LettersAndDigits(t[lo..hi]);
    }
  }

  /** What trim cuts off holds no small letter and no digit. */
  lemma CutEndsHaveNone(t: string, lo: int, hi: int)
    requires 0 <= lo <= hi <= |t| && EndsCut(t, lo, hi)
    ensures LettersAndDigits(t[..lo]) == [] && LettersAndDigits(t[hi..]) == []
  {
    forall i | 0 <= i < lo ensures IsTrimChar(t[..lo][i]) {
      assert t[..lo][i] == t[i];
    }
    forall i | 0 <= i < |t| - hi ensures IsTrimChar(t[hi..][i]) {
      assert t[hi..][i] == t[hi + i];
    }
    LettersAndDigitsOfNone(t[..lo]);
    LettersAndDigitsOfNone(t[hi..]);
  }

  /** Writing a separator without small letters and digits for each ' ' keeps every small letter and digit, in order. */
  lemma {:induction false} SeparatorKeepsLettersAndDigits(w: string, separator: string)
    requires LettersAndDigits(separator) == []
    ensures LettersAndDigits(StrReplaceChar(' ', separator, w)) == LettersAndDigits(w)
  {
    if w != [] {
      var head := if w[0] == ' ' then separator else [w[0]];
      assert StrReplaceChar(' ', separator, w) == head + StrReplaceChar(' ', separator, w[1..]);
      LettersAndDigitsAppend(head, StrReplaceChar(' ', separator, w[1..]));
      SeparatorKeepsLettersAndDigits(w[1..], separator);
      assert [w[0]][1..] == [];
      if w[0] == ' ' {
        assert LettersAndDigits([w[0]]) == [];
      }
    }
  }

  /**
   * toCleanUrl keeps every small letter and digit of the lowered
   * transliteration, in order, and adds none when the separator has none.
   */
  lemma CleanUrlKeepsLettersAndDigits(s: string, separator: string)
    requires LettersAndDigits(separator) == []
    ensures LettersAndDigits(ToCleanUrl(s, separator)) == LettersAndDigits(ToLowerCase(Transliterate(s)))
  {
    var lowered := ToLowerCase(Transliterate(s));
    var kept := KeepWordAndSpace(lowered);
    var collapsed := CollapseSpaces(kept);
    SeparatorKeepsLettersAndDigits(Trim(collapsed), separator);
    TrimKeepsLettersAndDigits(collapsed);
    CollapseKeepsLettersAndDigits(kept);
    FilterKeepsLettersAndDigits(lowered);
  }

  /**
   * A word, that is text without white space, is cleaned to the small
   * letters and digits of its lowered transliteration: nothing else of it
   * survives and nothing is added.
   */
  lemma CleanWordsOfWord(w: string)
    requires NoWhiteSpace(w)
    ensures CleanWords(w) == LettersAndDigits(ToLowerCase(Transliterate(w)))
  {
    var x := ToLowerCase(Transliterate(w));
    var y := LettersAndDigits(x);
    calc {
      CleanWords(w);
      Trim(CollapseSpaces(KeepWordAndSpace(x)));
      { LoweredWordFacts(w); FilterOfWord(x); }
      Trim(CollapseSpaces(y));
      { LettersAndDigitsPassCleaning(y); }
      y;
    }
  }

  /** Small letters and digits pass the collapse and trim unchanged. */
  lemma LettersAndDigitsPassCleaning(y: string)
    requires forall i :: 0 <= i < |y| ==> IsAsciiLower(y[i]) || IsAsciiDigit(y[i])
    ensures Trim(CollapseSpaces(y)) == y
  {
    LettersAndDigitsHaveNoSpace(y);
  }

  /** A string of small letters and digits has no run of spaces and no trim character at either end. */
  lemma LettersAndDigitsHaveNoSpace(y: string)
    requires forall i :: 0 <= i < |y| ==> IsAsciiLower(y[i]) || IsAsciiDigit(y[i])
    ensures NoDoubleSpace(y)
    ensures y == [] || (!IsTrimChar(y[0]) && !IsTrimChar(y[|y| - 1]))
  {
  }

  /** The lowered transliteration of a word is still a word, and has no capital. */
  lemma LoweredWordFacts(w: string)
    requires NoWhiteSpace(w)
    ensures NoWhiteSpace(ToLowerCase(Transliterate(w))) && NoAsciiUpper(ToLowerCase(Transliterate(w)))
  {
    var t := Transliterate(w);
    forall i | 0 <= i < |t| ensures !IsAsciiSpace(t[i]) {
      assert t[i] in t;
      if !IsAsciiLetter(t[i]) {
        var j :| 0 <= j < |w| && w[j] == t[i];
      }
    }
    forall i | 0 <= i < |t| ensures !IsAsciiSpace(ToLowerCase(t)[i]) {
      CaseMapFacts(t[i]);
    }
  }

  /** On a word without capitals the class filter keeps exactly the small letters and digits. */
  lemma {:induction false} FilterOfWord(x: string)
    requires NoWhiteSpace(x) && NoAsciiUpper(x)
    ensures KeepWordAndSpace(x) == LettersAndDigits(x)
  {
    if x != [] {
      FilterOfWord(x[1..]);
    }
  }

  /** Transliterating and lowering work character by character. */
  lemma LoweredTransliterationAppend(a: string, b: string)
    ensures ToLowerCase(Transliterate(a + b)) == ToLowerCase(Transliterate(a)) + ToLowerCase(Transliterate(b))
  {
    TransliterateAppend(a, b);
    LowerAppend(Transliterate(a), Transliterate(b));
  }

  /** A run of spaces passes steps 1 to 3 unchanged. */
  lemma GapPassesFilter(gap: string)
    requires ConsistsOf(gap, ' ')
    ensures ToLowerCase(Transliterate(gap)) == gap && KeepWordAndSpace(gap) == gap
  {
    forall i | 0 <= i < |gap| ensures Accent(gap[i]).None? {
      AccentTableShape(gap[i]);
    }
  }

  /**
   * Two words with a run of spaces between them are cleaned word by word,
   * with exactly one ' ' left between them.
   */
  lemma CleanWordsJoin(a: string, gap: string, b: string)
    requires NoWhiteSpace(a) && NoWhiteSpace(b) && |gap| > 0 && ConsistsOf(gap, ' ')
    requires CleanWords(a) != [] && CleanWords(b) != []
    ensures CleanWords(a + gap + b) == CleanWords(a) + " " + CleanWords(b)
  {
    var wa, wb := LettersAndDigits(ToLowerCase(Transliterate(a))), LettersAndDigits(ToLowerCase(Transliterate(b)));
    CleanWordsOfWord(a);
    CleanWordsOfWord(b);
    calc {
      CleanWords(a + gap + b);
      Trim(CollapseSpaces(KeepWordAndSpace(ToLowerCase(Transliterate(a + gap + b)))));
      { FilterWordsAndGap(a, gap, b); }
      Trim(CollapseSpaces(wa + gap + wb));
      { CollapseWordsAndGap(wa, gap, wb); }
      Trim(wa + " " + wb);
      { TrimWordPair(wa, wb); }
      wa + " " + wb;
    }
  }

  /** Steps 1 to 3 on two words and a run of spaces keep the run and the small letters and digits of each word. */
  lemma FilterWordsAndGap(a: string, gap: string, b: string)
    requires NoWhiteSpace(a) && NoWhiteSpace(b) && ConsistsOf(gap, ' ')
    ensures KeepWordAndSpace(ToLowerCase(Transliterate(a + gap + b)))
      == LettersAndDigits(ToLowerCase(Transliterate(a))) + gap + LettersAndDigits(ToLowerCase(Transliterate(b)))
  {
    var xa, xb := ToLowerCase(Transliterate(a)), ToLowerCase(Transliterate(b));
    assert ToLowerCase(Transliterate(a + gap + b)) == xa + gap + xb by {
      LoweredTransliterationAppend(a + gap, b);
      LoweredTransliterationAppend(a, gap);
      GapPassesFilter(gap);
    }
    assert KeepWordAndSpace(xa + gap + xb) == LettersAndDigits(xa) + gap + LettersAndDigits(xb) by {
      LoweredWordFacts(a);
      LoweredWordFacts(b);
      FilterOfWord(xa);
      FilterOfWord(xb);
      KeepWordAndSpaceAppend(xa + gap, xb);
      KeepWordAndSpaceAppend(xa, gap);
      GapPassesFilter(gap);
    }
  }

  /** Two words of small letters and digits joined by one space have nothing for trim to cut. */
  lemma TrimWordPair(wa: string, wb: string)
    requires wa != [] && wb != []
    requires forall i :: 0 <= i < |wa| ==> IsAsciiLower(wa[i]) || IsAsciiDigit(wa[i])
    requires forall i :: 0 <= i < |wb| ==> IsAsciiLower(wb[i]) || IsAsciiDigit(wb[i])
    ensures Trim(wa + " " + wb) == wa + " " + wb
  {
    var j := wa + " " + wb;
    assert j[0] == wa[0] && j[|j| - 1] == wb[|wb| - 1];
  }

  /** Between two words of small letters and digits, a run of spaces collapses to one. */
  lemma CollapseWordsAndGap(wa: string, gap: string, wb: string)
    requires wa != [] && wb != [] && |gap| > 0 && ConsistsOf(gap, ' ')
    requires forall i :: 0 <= i < |wa| ==> IsAsciiLower(wa[i]) || IsAsciiDigit(wa[i])
    requires forall i :: 0 <= i < |wb| ==> IsAsciiLower(wb[i]) || IsAsciiDigit(wb[i])
    ensures CollapseSpaces(wa + gap + wb) == wa + " " + wb
  {
    assert CollapseSpaces(wa) == wa && CollapseSpaces(wb) == wb by {
      assert NoDoubleSpace(wa) && NoDoubleSpace(wb);
    }
    calc {
      CollapseSpaces(wa + gap + wb);
      { AppendAssociates(wa, gap, wb); }
      CollapseSpaces(wa + (gap + wb));
      { CollapseSpacesAppend(wa, gap + wb); }
      CollapseSpaces(wa) + CollapseSpaces(gap + wb);
      { CollapseSpacesAppend(gap, wb); }
      wa + (CollapseSpaces(gap) + wb);
      { CollapseSpacesRun(gap); }
      wa + (" " + wb);
      { AppendAssociates(wa, " ", wb); }
      wa + " " + wb;
    }
  }

  /**
   * toCleanUrl on two words with a run of spaces between them: each word is
   * cleaned on its own and the run becomes one separator.
   */
  lemma CleanUrlJoin(a: string, gap: string, b: string, separator: string)
    requires NoWhiteSpace(a) && NoWhiteSpace(b) && |gap| > 0 && ConsistsOf(gap, ' ')
    requires CleanWords(a) != [] && CleanWords(b) != []
    ensures ToCleanUrl(a + gap + b, separator) == ToCleanUrl(a, separator) + separator + ToCleanUrl(b, separator)
  {
    var wa, wb := CleanWords(a), CleanWords(b);
    CleanWordsJoin(a, gap, b);
    CleanUrlOfWord(a, separator);
    CleanUrlOfWord(b, separator);
    StrReplaceCharAppend(' ', separator, wa + " ", wb);
    StrReplaceCharAppend(' ', separator, wa, " ");
    StrReplaceCharOne(' ', separator, ' ');
  }

  /** toCleanUrl on a word writes no separator. */
  lemma CleanUrlOfWord(w: string, separator: string)
    requires NoWhiteSpace(w)
    ensures ToCleanUrl(w, separator) == CleanWords(w)
    ensures ToCleanUrl(w, separator) == LettersAndDigits(ToLowerCase(Transliterate(w)))
  {
    CleanWordsOfWord(w);
    assert ' ' !in CleanWords(w);
  }
}
