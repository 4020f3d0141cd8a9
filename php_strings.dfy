/**
 * The PHP string primitives the Conversion trait is built from, defined from
 * their documented behaviour (PHP 8.2 and later, where case mapping is ASCII
 * only and independent of the locale).  Strings are sequences of characters;
 * every function here returns a new string and never changes its argument.
 */
module PhpStrings {

  /** A lookup that may find nothing. */
  datatype Option<T> = None | Some(value: T)

  // ---------------------------------------------------------------------------
  // Character classes
  // ---------------------------------------------------------------------------

  predicate IsAsciiUpper(c: char) { 'A' <= c <= 'Z' }

  predicate IsAsciiLower(c: char) { 'a' <= c <= 'z' }

  predicate IsAsciiDigit(c: char) { '0' <= c <= '9' }

  predicate IsAsciiLetter(c: char) { IsAsciiUpper(c) || IsAsciiLower(c) }

  /**
   * The six ASCII white-space characters: space, \t, \n, \v, \f and \r.
   * This is both the default delimiter list of `ucwords` (" \t\r\n\f\v") and
   * the class `\s` of a PCRE pattern without the `u` modifier in the C locale.
   */
  predicate IsAsciiSpace(c: char) {
    c == ' ' || c == '\t' || c == '\n' || c == '\U{0B}' || c == '\U{0C}' || c == '\r'
  }

  /** The characters `trim` strips by default: " \t\n\r\0\x0B" (not \f). */
  predicate IsTrimChar(c: char) {
    c == ' ' || c == '\t' || c == '\n' || c == '\r' || c == '\0' || c == '\U{0B}'
  }

  /** The characters `[a-zA-Z0-9\s]` matches, i.e. those a `[^a-zA-Z0-9\s]` deletion keeps. */
  predicate IsWordOrSpace(c: char) {
    IsAsciiLetter(c) || IsAsciiDigit(c) || IsAsciiSpace(c)
  }

  /** No character of `s` is an ASCII capital. */
  predicate NoAsciiUpper(s: string) {
    forall i :: 0 <= i < |s| ==> !IsAsciiUpper(s[i])
  }

  /** No character of `s` is white space: `s` lies within one word. */
  predicate NoWhiteSpace(s: string) {
    forall i :: 0 <= i < |s| ==> !IsAsciiSpace(s[i])
  }

  // ---------------------------------------------------------------------------
  // strtolower, strtoupper (and the one-character case maps behind them)
  // ---------------------------------------------------------------------------

  /** ASCII lowering of one character: 'A'..'Z' become 'a'..'z', all else is kept. */
  function LowerChar(c: char): (r: char)
    ensures !IsAsciiUpper(r)
    ensures r != c <==> IsAsciiUpper(c)
    ensures IsAsciiUpper(c) ==> IsAsciiLower(r) && r as int - 'a' as int == c as int - 'A' as int
  {
    if IsAsciiUpper(c) then (c as int + 32) as char else c
  }

  /** ASCII uppering of one character: 'a'..'z' become 'A'..'Z', all else is kept. */
  function UpperChar(c: char): (r: char)
    ensures !IsAsciiLower(r)
    ensures r != c <==> IsAsciiLower(c)
    ensures IsAsciiLower(c) ==> IsAsciiUpper(r) && r as int - 'A' as int == c as int - 'a' as int
  {
    if IsAsciiLower(c) then (c as int - 32) as char else c
  }

  /**
   * Lowering after uppering equals lowering, and uppering after lowering equals
   * uppering; neither case map does anything the second time, and neither
   * touches a white-space character or turns anything into one.
   */
  lemma CaseMapFacts(c: char)
    ensures LowerChar(UpperChar(c)) == LowerChar(c) && UpperChar(LowerChar(c)) == UpperChar(c)
    ensures LowerChar(LowerChar(c)) == LowerChar(c) && UpperChar(UpperChar(c)) == UpperChar(c)
    ensures IsAsciiSpace(LowerChar(c)) == IsAsciiSpace(c) && IsAsciiSpace(UpperChar(c)) == IsAsciiSpace(c)
    ensures IsTrimChar(LowerChar(c)) == IsTrimChar(c) && IsTrimChar(UpperChar(c)) == IsTrimChar(c)
    ensures (LowerChar(c) == ' ') == (c == ' ') && (UpperChar(c) == ' ') == (c == ' ')
  {
  }

  /** strtolower: lowers every character of `s` with LowerChar. */
  function StrToLower(s: string): (r: string)
    ensures |r| == |s|
    ensures forall i :: 0 <= i < |s| ==> r[i] == LowerChar(s[i])
  {
    if s == [] then [] else [LowerChar(s[0])] + StrToLower(s[1..])
  }

  /** strtoupper: uppers every character of `s` with UpperChar. */
  function StrToUpper(s: string): (r: string)
    ensures |r| == |s|
    ensures forall i :: 0 <= i < |s| ==> r[i] == UpperChar(s[i])
  {
    if s == [] then [] else [UpperChar(s[0])] + StrToUpper(s[1..])
  }

  // ---------------------------------------------------------------------------
  // ucfirst, ucwords
  // ---------------------------------------------------------------------------

  /** ucfirst: the first character uppered, the rest untouched; "" stays "". */
  function Ucfirst(s: string): (r: string)
    ensures |r| == |s|
    ensures |s| > 0 ==> r[0] == UpperChar(s[0])
    ensures forall i :: 0 < i < |s| ==> r[i] == s[i]
  {
    if s == [] then [] else s[0 := UpperChar(s[0])]
  }

  /** Position `i` of `s` starts a word for `ucwords`: it is first or follows a delimiter. */
  predicate StartsWord(s: string, i: int)
    requires 0 <= i < |s|
  {
    i == 0 || IsAsciiSpace(s[i - 1])
  }

  /**
   * The scan behind `ucwords`: `atWordStart` tells whether the character before
   * `s` (or the start of the whole string) opens a word.
   */
  function UcwordsFrom(s: string, atWordStart: bool): (r: string)
    ensures |r| == |s|
    ensures |s| > 0 ==> r[0] == if atWordStart then UpperChar(s[0]) else s[0]
    ensures forall i :: 0 < i < |s| ==> r[i] == if IsAsciiSpace(s[i - 1]) then UpperChar(s[i]) else s[i]
  {
    if s == [] then []
    else [if atWordStart then UpperChar(s[0]) else s[0]] + UcwordsFrom(s[1..], IsAsciiSpace(s[0]))
  }

  /**
   * ucwords with its default delimiters: every character that starts a word is
   * uppered, every other character is left as it is.
   */
  function Ucwords(s: string): (r: string)
    ensures |r| == |s|
    ensures forall i :: 0 <= i < |s| ==> r[i] == if StartsWord(s, i) then UpperChar(s[i]) else s[i]
  {
    UcwordsFrom(s, true)
  }

  /** The ucwords scan works character by character, carrying only whether the last one was white space. */
  lemma UcwordsFromAppend(a: string, b: string, atWordStart: bool)
    ensures UcwordsFrom(a + b, atWordStart) ==
      UcwordsFrom(a, atWordStart) + UcwordsFrom(b, if a == [] then atWordStart else IsAsciiSpace(a[|a| - 1]))
  {
    forall i | 0 <= i < |a + b|
      ensures UcwordsFrom(a + b, atWordStart)[i] ==
        (UcwordsFrom(a, atWordStart) + UcwordsFrom(b, if a == [] then atWordStart else IsAsciiSpace(a[|a| - 1])))[i]
    {
      if i < |a| {
        UcwordsFromAppendLeft(a, b, atWordStart, i);
      } else {
        UcwordsFromAppendRight(a, b, atWordStart, i - |a|);
      }
    }
  }

  /** Left of the cut the scan sees what it would see in `a` alone. */
  lemma UcwordsFromAppendLeft(a: string, b: string, atWordStart: bool, i: int)
    requires 0 <= i < |a|
    ensures UcwordsFrom(a + b, atWordStart)[i] == UcwordsFrom(a, atWordStart)[i]
  {
    assert (a + b)[i] == a[i];
    if i > 0 {
      assert (a + b)[i - 1] == a[i - 1];
    }
  }

  /** Right of the cut the scan sees what it would see in `b` alone, started after `a`'s last character. */
  lemma UcwordsFromAppendRight(a: string, b: string, atWordStart: bool, j: int)
    requires 0 <= j < |b|
    ensures UcwordsFrom(a + b, atWordStart)[|a| + j] ==
      UcwordsFrom(b, if a == [] then atWordStart else IsAsciiSpace(a[|a| - 1]))[j]
  {
    var i := |a| + j;
    assert (a + b)[i] == b[j];
    if j > 0 {
      assert (a + b)[i - 1] == b[j - 1];
    } else if i > 0 {
      assert (a + b)[i - 1] == a[|a| - 1];
    }
  }

  // ---------------------------------------------------------------------------
  // str_replace with a one-character search string
  // ---------------------------------------------------------------------------

  /** str_replace(search, replace, s) where `search` is one character. */
  function StrReplaceChar(search: char, replace: string, s: string): (r: string)
    ensures search !in s ==> r == s
    ensures forall c :: c in r ==> (c in s && c != search) || c in replace
    ensures |s| > 0 && s[0] != search ==> |r| > 0 && r[0] == s[0]
    ensures |s| > 0 && s[|s| - 1] != search ==> |r| > 0 && r[|r| - 1] == s[|s| - 1]
  {
    if s == [] then []
    else (if s[0] == search then replace else [s[0]]) + StrReplaceChar(search, replace, s[1..])
  }

  /** str_replace with a one-character search string is strtr with that one key. */
  lemma {:induction false} StrReplaceCharIsStrtr(search: char, replace: string, s: string)
    ensures StrReplaceChar(search, replace, s) == Strtr(c => if c == search then Some(replace) else None, s)
  {
    if s != [] {
      StrReplaceCharIsStrtr(search, replace, s[1..]);
    }
  }

  /** str_replace works character by character: it distributes over concatenation. */
  lemma StrReplaceCharAppend(search: char, replace: string, a: string, b: string)
    ensures StrReplaceChar(search, replace, a + b) == StrReplaceChar(search, replace, a) + StrReplaceChar(search, replace, b)
  {
    var table := c => if c == search then Some(replace) else None;
    StrReplaceCharIsStrtr(search, replace, a + b);
    StrReplaceCharIsStrtr(search, replace, a);
    StrReplaceCharIsStrtr(search, replace, b);
    StrtrAppend(table, a, b);
  }

  /** On one character: the search character is written as `replace`, any other as itself. */
  lemma StrReplaceCharOne(search: char, replace: string, c: char)
    ensures StrReplaceChar(search, replace, [c]) == if c == search then replace else [c]
  {
    assert [c][1..] == [];
  }

  /** A character that is neither `search` nor written by `replace` keeps all its occurrences. */
  lemma {:induction false} StrReplaceCharCounts(search: char, replace: string, s: string, c: char)
    requires c != search && c !in replace
    ensures multiset(StrReplaceChar(search, replace, s))[c] == multiset(s)[c]
  {
    if s != [] {
      var head := if s[0] == search then replace else [s[0]];
      var rest := StrReplaceChar(search, replace, s[1..]);
      assert multiset(head)[c] == multiset([s[0]])[c] by {
        if s[0] == search {
          assert c !in head;
        }
      }
      calc {
        multiset(StrReplaceChar(search, replace, s))[c];
        multiset(head + rest)[c];
        multiset(head)[c] + multiset(rest)[c];
        { StrReplaceCharCounts(search, replace, s[1..], c); }
        multiset([s[0]])[c] + multiset(s[1..])[c];
        { assert s == [s[0]] + s[1..]; }
        multiset(s)[c];
      }
    }
  }

  /** Where `search` occurs, every character of `replace` is written. */
  lemma {:induction false} StrReplaceCharWritesReplacement(search: char, replace: string, s: string)
    requires search in s
    ensures forall c :: c in replace ==> c in StrReplaceChar(search, replace, s)
  {
    if s[0] != search {
      StrReplaceCharWritesReplacement(search, replace, s[1..]);
    }
  }

  /** Replacing a character by a single character keeps every other position. */
  lemma {:induction false} StrReplaceCharByOne(search: char, x: char, s: string)
    ensures |StrReplaceChar(search, [x], s)| == |s|
    ensures forall i :: 0 <= i < |s| ==>
      StrReplaceChar(search, [x], s)[i] == if s[i] == search then x else s[i]
  {
    if s != [] {
      StrReplaceCharByOne(search, x, s[1..]);
    }
  }

  /** Deleting a character shortens the string by its number of occurrences. */
  lemma {:induction false} StrReplaceCharByNothing(search: char, s: string)
    ensures |StrReplaceChar(search, [], s)| == |s| - multiset(s)[search]
  {
    if s != [] {
      StrReplaceCharByNothing(search, s[1..]);
      assert s == [s[0]] + s[1..];
      assert multiset(s) == multiset{s[0]} + multiset(s[1..]);
    }
  }

  /** Deleting a character leaves nothing exactly when nothing else was there. */
  lemma {:induction false} StrReplaceCharByNothingEmpty(search: char, s: string)
    ensures StrReplaceChar(search, [], s) == [] <==> ConsistsOf(s, search)
  {
    if s != [] {
      StrReplaceCharByNothingEmpty(search, s[1..]);
      if s[0] == search {
        assert forall i :: 0 < i < |s| ==> s[i] == s[1..][i - 1];
      }
    }
  }

  /** Every character of `s` is `c` (vacuously so for the empty string). */
  predicate ConsistsOf(s: string, c: char) {
    forall i :: 0 <= i < |s| ==> s[i] == c
  }

  // ---------------------------------------------------------------------------
  // strtr with an array whose keys are single characters
  // ---------------------------------------------------------------------------

  /**
   * What strtr writes for one character: the table's entry for it, or the
   * character itself when it is not a key.
   */
  function Image(table: char -> Option<string>, c: char): (r: string)
    ensures table(c).None? ==> r == [c]
  {
    match table(c)
    case Some(v) => v
    case None => [c]
  }

  /**
   * strtr(s, table) when every key of `table` is one character: one scan from
   * left to right in which each key is replaced by its value; text that was
   * written as a replacement is never looked at again.
   */
  function Strtr(table: char -> Option<string>, s: string): (r: string)
    ensures (forall i :: 0 <= i < |s| ==> table(s[i]).None?) ==> r == s
  {
    if s == [] then [] else Image(table, s[0]) + Strtr(table, s[1..])
  }

  /** strtr works character by character: it distributes over concatenation. */
  lemma {:induction false} StrtrAppend(table: char -> Option<string>, a: string, b: string)
    ensures Strtr(table, a + b) == Strtr(table, a) + Strtr(table, b)
  {
    if a == [] {
      assert a + b == b;
    } else {
      calc {
        Strtr(table, a + b);
        { assert (a + b)[0] == a[0] && (a + b)[1..] == a[1..] + b; }
        Image(table, a[0]) + Strtr(table, a[1..] + b);
        { StrtrAppend(table, a[1..], b); }
        Image(table, a[0]) + (Strtr(table, a[1..]) + Strtr(table, b));
        (Image(table, a[0]) + Strtr(table, a[1..])) + Strtr(table, b);
      }
    }
  }

  // ---------------------------------------------------------------------------
  // preg_replace('/[^a-zA-Z0-9\s]/', '', s) and preg_replace('{ +}', ' ', s)
  // ---------------------------------------------------------------------------

  /** Deletes every character outside `[a-zA-Z0-9\s]`, keeping the order of the rest. */
  function KeepWordAndSpace(s: string): (r: string)
    ensures forall c :: c in r ==> c in s && IsWordOrSpace(c)
    ensures (forall i :: 0 <= i < |s| ==> IsWordOrSpace(s[i])) ==> r == s
  {
    if s == [] then []
    else
      assert s == [s[0]] + s[1..];
      (if IsWordOrSpace(s[0]) then [s[0]] else []) + KeepWordAndSpace(s[1..])
  }

  /** The filter loses no character of the class it keeps. */
  lemma {:induction false} KeepWordAndSpaceCounts(s: string)
    ensures forall c :: IsWordOrSpace(c) ==> multiset(KeepWordAndSpace(s))[c] == multiset(s)[c]
  {
    if s != [] {
      KeepWordAndSpaceCounts(s[1..]);
      assert s == [s[0]] + s[1..];
    }
  }

  /** The filter is strtr with every character outside the class as a key for "". */
  lemma {:induction false} KeepWordAndSpaceIsStrtr(s: string)
    ensures KeepWordAndSpace(s) == Strtr(c => if IsWordOrSpace(c) then None else Some([]), s)
  {
    if s != [] {
      KeepWordAndSpaceIsStrtr(s[1..]);
    }
  }

  /** The filter works character by character: it distributes over concatenation. */
  lemma KeepWordAndSpaceAppend(a: string, b: string)
    ensures KeepWordAndSpace(a + b) == KeepWordAndSpace(a) + KeepWordAndSpace(b)
  {
    KeepWordAndSpaceIsStrtr(a + b);
    KeepWordAndSpaceIsStrtr(a);
    KeepWordAndSpaceIsStrtr(b);
    StrtrAppend(c => if IsWordOrSpace(c) then None else Some([]), a, b);
  }

  /** On one character: it is kept exactly when it is in `[a-zA-Z0-9\s]`. */
  lemma KeepWordAndSpaceOne(c: char)
    ensures KeepWordAndSpace([c]) == if IsWordOrSpace(c) then [c] else []
  {
    assert [c][1..] == [];
  }

  /** No two neighbouring characters of `s` are both a space. */
  predicate NoDoubleSpace(s: string) {
    forall i :: 0 <= i < |s| - 1 ==> !(s[i] == ' ' && s[i + 1] == ' ')
  }

  /**
   * Replaces every run of one or more spaces by one space.  Only ' ' is
   * affected: a tab or a newline between two spaces separates two runs.
   */
  function CollapseSpaces(s: string): (r: string)
    ensures NoDoubleSpace(r)
    ensures forall i :: 0 <= i < |r| ==> r[i] in s
    ensures |s| > 0 ==> |r| > 0 && r[0] == s[0]
    ensures NoDoubleSpace(s) ==> r == s
  {
    if |s| <= 1 then s
    else
      assert s == [s[0]] + s[1..];
      if s[0] == ' ' && s[1] == ' ' then CollapseSpaces(s[1..])
      else [s[0]] + CollapseSpaces(s[1..])
  }

  /**
   * The collapse works run by run: cutting `s` anywhere but inside a run of
   * spaces, the two parts are collapsed on their own.
   */
  lemma {:induction false} CollapseSpacesAppend(a: string, b: string)
    requires a == [] || b == [] || a[|a| - 1] != ' ' || b[0] != ' '
    ensures CollapseSpaces(a + b) == CollapseSpaces(a) + CollapseSpaces(b)
  {
    if a == [] {
      assert a + b == b;
    } else if b == [] {
      assert a + b == a;
    } else if |a| == 1 {
      assert (a + b)[0] == a[0] && (a + b)[1] == b[0] && (a + b)[1..] == b;
    } else {
      assert (a + b)[0] == a[0] && (a + b)[1] == a[1] && (a + b)[1..] == a[1..] + b;
      CollapseSpacesAppend(a[1..], b);
    }
  }

  /** A run of one or more spaces, and nothing else, collapses to one space. */
  lemma {:induction false} CollapseSpacesRun(s: string)
    requires |s| > 0 && ConsistsOf(s, ' ')
    ensures CollapseSpaces(s) == " "
  {
    if |s| > 1 {
      CollapseSpacesRun(s[1..]);
    }
  }

  /** The space collapse loses spaces only. */
  lemma {:induction false} CollapseSpacesCounts(s: string)
    ensures forall c :: c != ' ' ==> multiset(CollapseSpaces(s))[c] == multiset(s)[c]
  {
    if |s| > 1 {
      CollapseSpacesCounts(s[1..]);
      assert s == [s[0]] + s[1..];
    }
  }

  // ---------------------------------------------------------------------------
  // trim
  // ---------------------------------------------------------------------------

  /** Where trim's scan from the left stops: the first index from `lo` on that is not a trim character. */
  function TrimStart(s: string, lo: nat): (r: nat)
    requires lo <= |s|
    ensures lo <= r <= |s|
    ensures forall k :: lo <= k < r ==> IsTrimChar(s[k])
    ensures r < |s| ==> !IsTrimChar(s[r])
    decreases |s| - lo
  {
    if lo < |s| && IsTrimChar(s[lo]) then TrimStart(s, lo + 1) else lo
  }

  /** Where trim's scan from the right stops: just after the last index below `hi`, and not below `lo`, that is not a trim character. */
  function TrimEnd(s: string, lo: nat, hi: nat): (r: nat)
    requires lo <= hi <= |s|
    ensures lo <= r <= hi
    ensures forall k :: r <= k < hi ==> IsTrimChar(s[k])
    ensures lo < r ==> !IsTrimChar(s[r - 1])
  {
    if lo < hi && IsTrimChar(s[hi - 1]) then TrimEnd(s, lo, hi - 1) else hi
  }

  /**
   * trim: `s` without its leading and trailing trim characters.  The result
   * is a slice of `s` that neither starts nor ends with a trim character.
   */
  function Trim(s: string): (r: string)
    ensures r == [] || (!IsTrimChar(r[0]) && !IsTrimChar(r[|r| - 1]))
    ensures forall i :: 0 <= i < |r| ==> r[i] in s
    ensures NoDoubleSpace(s) ==> NoDoubleSpace(r)
    ensures (s == [] || (!IsTrimChar(s[0]) && !IsTrimChar(s[|s| - 1]))) ==> r == s
    ensures exists lo, hi :: 0 <= lo <= hi <= |s| && r == s[lo..hi] && EndsCut(s, lo, hi)
  {
    var lo := TrimStart(s, 0);
    var hi := TrimEnd(s, lo, |s|);
    TrimmedSlice(s, lo, hi);
    assert s[0..|s|] == s;
    assert EndsCut(s, lo, hi);
    s[lo..hi]
  }

  /** Everything before `lo` and from `hi` on is a trim character. */
  predicate EndsCut(s: string, lo: int, hi: int)
    requires 0 <= lo <= hi <= |s|
  {
    (forall k :: 0 <= k < lo ==> IsTrimChar(s[k])) && (forall k :: hi <= k < |s| ==> IsTrimChar(s[k]))
  }

  /** Only trim characters are lost by trim. */
  lemma TrimCounts(s: string)
    ensures forall c :: !IsTrimChar(c) ==> multiset(Trim(s))[c] == multiset(s)[c]
  {
    var lo := TrimStart(s, 0);
    TrimmedSliceCounts(s, lo, TrimEnd(s, lo, |s|));
  }

  /** A slice of `s` keeps every character of `s` and every gap between two of them. */
  lemma TrimmedSlice(s: string, lo: int, hi: int)
    requires 0 <= lo <= hi <= |s|
    ensures forall i :: 0 <= i < hi - lo ==> s[lo..hi][i] in s
    ensures NoDoubleSpace(s) ==> NoDoubleSpace(s[lo..hi])
  {
    forall i | 0 <= i < hi - lo ensures s[lo..hi][i] in s {
      assert s[lo..hi][i] == s[lo + i];
    }
  }

  /** Cutting off trim characters at both ends keeps everything else of `s`. */
  lemma TrimmedSliceCounts(s: string, lo: int, hi: int)
    requires 0 <= lo <= hi <= |s|
    requires forall k :: 0 <= k < lo ==> IsTrimChar(s[k])
    requires forall k :: hi <= k < |s| ==> IsTrimChar(s[k])
    ensures forall c :: !IsTrimChar(c) ==> multiset(s[lo..hi])[c] == multiset(s)[c]
  {
    assert s == s[..lo] + s[lo..hi] + s[hi..];
    forall c | !IsTrimChar(c)
      ensures multiset(s[lo..hi])[c] == multiset(s)[c]
    {
      assert c !in s[..lo] && c !in s[hi..];
      assert multiset(s) == multiset(s[..lo]) + multiset(s[lo..hi]) + multiset(s[hi..]);
    }
  }
}
