/** The title test that puts a new case in the "U.S. Criminal and Civil
    Cases" bucket: a case-insensitive search for

      \b(?:USA|U\.?S\.?A\.?|United\s+States(?:\s+of\s+America)?)\b\s*v\.?\s*\b

    anywhere in the title. A regular-expression search succeeds when the
    pattern matches at some start position along some path through its
    alternatives and optional parts, so the matcher below is written as
    bounded existentials over the positions where each part ends.

    Word characters and case folding are the ASCII ones; white space is the
    full set Python's `\s` accepts in a `str` pattern. */
module PartyPattern {

  /** Python's `\s` on `str`: ASCII white space, the information separators
      0x1C-0x1F, NEL, no-break space and the Unicode space separators. */
  predicate IsSpace(c: char)
  {
    var n := c as int;
    || n == 0x20 || 0x09 <= n <= 0x0D || 0x1C <= n <= 0x1F || n == 0x85 || n == 0xA0
    || n == 0x1680 || 0x2000 <= n <= 0x200A || n == 0x2028 || n == 0x2029
    || n == 0x202F || n == 0x205F || n == 0x3000
  }

  /** `\w`, restricted to ASCII. */
  predicate IsWordChar(c: char)
  {
    'a' <= c <= 'z' || 'A' <= c <= 'Z' || '0' <= c <= '9' || c == '_'
  }

  /** ASCII lower case, as `re.IGNORECASE` compares letters. */
  function Lower(c: char): (l: char)
    ensures 'A' <= c <= 'Z' ==> 'a' <= l <= 'z'
    ensures !('A' <= c <= 'Z') ==> l == c
  {
    if 'A' <= c <= 'Z' then (c as int + 32) as char else c
  }

  /** `\b` at position `p` of `t`: a word character on exactly one side. */
  predicate WordBoundary(t: string, p: int)
    requires 0 <= p <= |t|
  {
    (p > 0 && IsWordChar(t[p - 1])) != (p < |t| && IsWordChar(t[p]))
  }

  predicate AllSpace(s: string)
  {
    forall k | 0 <= k < |s| :: IsSpace(s[k])
  }

  /** `s` spells the lower-case word `w`, ignoring case. */
  predicate FoldEquals(s: string, w: string)
  {
    |s| == |w| && forall k | 0 <= k < |s| :: Lower(s[k]) == w[k]
  }

  /** `s` matches the letters of `w` each followed by an optional dot:
      `U\.?S\.?A\.?` for `w == "usa"`. */
  predicate DottedLetters(s: string, w: string)
    decreases |w|
  {
    if w == [] then s == []
    else
      && |s| >= 1
      && Lower(s[0]) == w[0]
      && (|| DottedLetters(s[1..], w[1..])
          || (|s| >= 2 && s[1] == '.' && DottedLetters(s[2..], w[1..])))
  }

  /** `s` matches the words of `ws` separated by `\s+`. */
  predicate SpacedWords(s: string, ws: seq<string>)
    requires ws != []
    decreases |ws|
  {
    if |ws| == 1 then FoldEquals(s, ws[0])
    else
      var n := |ws[0]|;
      && n <= |s|
      && FoldEquals(s[..n], ws[0])
      && exists k | n < k <= |s| :: AllSpace(s[n..k]) && SpacedWords(s[k..], ws[1..])
  }

  /** The party alternation `USA|U\.?S\.?A\.?|United\s+States(?:\s+of\s+America)?`. */
  predicate IsPartyName(s: string)
  {
    || FoldEquals(s, "usa")
    || DottedLetters(s, "usa")
    || SpacedWords(s, ["united", "states"])
    || SpacedWords(s, ["united", "states", "of", "america"])
  }

  /** `\s*\b` from position `p`. */
  predicate SpacesToBoundary(t: string, p: int)
    requires 0 <= p <= |t|
  {
    exists m | p <= m <= |t| :: AllSpace(t[p..m]) && WordBoundary(t, m)
  }

  /** `\.?\s*\b` after the `v` at position `k`. */
  predicate AfterVersus(t: string, k: int)
    requires 0 <= k < |t|
  {
    || SpacesToBoundary(t, k + 1)
    || (k + 2 <= |t| && t[k + 1] == '.' && SpacesToBoundary(t, k + 2))
  }

  /** `\s*v\.?\s*\b` from position `j`. */
  predicate VersusFrom(t: string, j: int)
    requires 0 <= j <= |t|
  {
    exists k | j <= k < |t| :: AllSpace(t[j..k]) && Lower(t[k]) == 'v' && AfterVersus(t, k)
  }

  /** The whole pattern matches starting at position `i`. */
  predicate MatchAt(t: string, i: int)
    requires 0 <= i <= |t|
  {
    && WordBoundary(t, i)
    && exists j | i <= j <= |t| :: IsPartyName(t[i..j]) && WordBoundary(t, j) && VersusFrom(t, j)
  }

  /** `pattern.search(title)` finds a match. */
  predicate IsUSParty(title: string)
  {
    exists i | 0 <= i <= |title| :: MatchAt(title, i)
  }

  /** Every party name starts with a U. */
  lemma PartyNameStartsWithU(s: string)
    ensures IsPartyName(s) ==> |s| > 0 && Lower(s[0]) == 'u'
  {
  }

  /** A match starts at a U. */
  lemma MatchStartsAtU(t: string, i: int)
    requires 0 <= i <= |t|
    ensures MatchAt(t, i) ==> i < |t| && Lower(t[i]) == 'u'
  {
    forall j | i <= j <= |t|
      ensures IsPartyName(t[i..j]) ==> i < |t| && Lower(t[i]) == 'u'
    {
      PartyNameStartsWithU(t[i..j]);
    }
  }

  /** A title without the letter U is never a government case. */
  lemma NoUNoMatch(t: string)
    requires forall k | 0 <= k < |t| :: Lower(t[k]) != 'u'
    ensures !IsUSParty(t)
  {
    forall i | 0 <= i <= |t|
      ensures !MatchAt(t, i)
    {
      MatchStartsAtU(t, i);
    }
  }

  /** A match read off its parts: a party name between positions `i` and `j`
      with word boundaries on both sides, spaces up to a `v` at `k`, an
      optional dot, then spaces up to a word boundary at `m`. */
  lemma MatchFromParts(t: string, i: int, j: int, k: int, dot: bool, m: int)
    requires 0 <= i <= j <= k < |t|
    requires WordBoundary(t, i) && IsPartyName(t[i..j]) && WordBoundary(t, j)
    requires AllSpace(t[j..k]) && Lower(t[k]) == 'v'
    requires dot ==> k + 2 <= |t| && t[k + 1] == '.'
    requires (if dot then k + 2 else k + 1) <= m <= |t|
    requires AllSpace(t[(if dot then k + 2 else k + 1)..m]) && WordBoundary(t, m)
    ensures IsUSParty(t)
  {
    var p := if dot then k + 2 else k + 1;
    assert SpacesToBoundary(t, p);
    assert VersusFrom(t, j);
    assert MatchAt(t, i);
  }

  lemma UsaVersusMatches()
    ensures IsUSParty("USA v. John Doe")
  {
    var t := "USA v. John Doe";
    assert t[0..3] == "USA";
    assert FoldEquals("USA", "usa");
    assert t[3..4] == [' '] && t[6..7] == [' '];
    MatchFromParts(t, 0, 3, 4, true, 7);
  }

  lemma UnitedStatesIsPartyName()
    ensures IsPartyName("United States")
  {
    var s := "United States";
    assert FoldEquals(s[..6], "united");
    assert IsSpace(s[6]);
    assert AllSpace(s[6..7]);
    assert FoldEquals(s[7..], "states");
    assert ["united", "states"][1..] == ["states"];
    assert SpacedWords(s[7..], ["states"]);
  }

  lemma UnitedStatesVersusMatches()
    ensures IsUSParty("United States v. Smith")
  {
    var t := "United States v. Smith";
    UnitedStatesIsPartyName();
    assert t[0..13] == "United States";
    assert t[0] == 'U' && t[12] == 's' && t[13] == ' ' && t[14] == 'v' && t[15] == '.' && t[16] == ' ' && t[17] == 'S';
    assert t[13..14] == [' '] && t[16..17] == [' '];
    MatchFromParts(t, 0, 13, 14, true, 17);
  }

  lemma PrivatePartiesDoNotMatch()
    ensures !IsUSParty("Acme Corp v. Beta LLC")
  {
    NoUNoMatch("Acme Corp v. Beta LLC");
  }

  /** The last letter of a dotted abbreviation is the last letter of the word,
      possibly followed by its dot. */
  lemma {:induction false} DottedLettersEnd(s: string, w: string)
    requires w != [] && DottedLetters(s, w)
    ensures |w| <= |s| <= 2 * |w|
    ensures || Lower(s[|s| - 1]) == w[|w| - 1]
            || (|s| >= 2 && s[|s| - 1] == '.' && Lower(s[|s| - 2]) == w[|w| - 1])
    decreases |w|
  {
    if DottedLetters(s[1..], w[1..]) {
      if |w| > 1 {
        DottedLettersEnd(s[1..], w[1..]);
      }
    } else {
      if |w| > 1 {
        DottedLettersEnd(s[2..], w[1..]);
      }
    }
  }

  lemma SpacedStatesContainsA(s: string, ws: seq<string>)
    requires ws != [] && ws[0] == "states"
    requires SpacedWords(s, ws)
    ensures |s| > 2 && Lower(s[2]) == 'a'
  {
    if |ws| > 1 {
      assert FoldEquals(s[..6], "states");
      assert Lower(s[..6][2]) == 'a';
    }
  }

  /** Every party name has an A in it: "USA", "U.S.A.", "United States". */
  lemma PartyNameContainsA(s: string)
    ensures IsPartyName(s) ==> exists k :: 0 <= k < |s| && Lower(s[k]) == 'a'
  {
    if FoldEquals(s, "usa") {
      assert Lower(s[2]) == 'a';
    } else if DottedLetters(s, "usa") {
      DottedLettersEnd(s, "usa");
      if Lower(s[|s| - 1]) == 'a' {
      } else {
        assert Lower(s[|s| - 2]) == 'a';
      }
    } else if SpacedWords(s, ["united", "states"]) {
      var ws := ["united", "states"];
      var k :| 6 < k <= |s| && AllSpace(s[6..k]) && SpacedWords(s[k..], ws[1..]);
      SpacedStatesContainsA(s[k..], ws[1..]);
      assert Lower(s[k + 2]) == 'a';
    } else if SpacedWords(s, ["united", "states", "of", "america"]) {
      var ws := ["united", "states", "of", "america"];
      var k :| 6 < k <= |s| && AllSpace(s[6..k]) && SpacedWords(s[k..], ws[1..]);
      SpacedStatesContainsA(s[k..], ws[1..]);
      assert Lower(s[k + 2]) == 'a';
    }
  }

  /** A title with no A in it is never a government case; so the common
      "U.S. v." abbreviation, which the pattern requires to end in an A, does
      not count. */
  lemma NoANoMatch(t: string)
    requires forall k | 0 <= k < |t| :: Lower(t[k]) != 'a'
    ensures !IsUSParty(t)
  {
    forall i, j | 0 <= i <= j <= |t|
      ensures !IsPartyName(t[i..j])
    {
      PartyNameContainsA(t[i..j]);
    }
  }

  /** A `v` followed by a word character cannot be the pattern's `v`. */
  lemma VersusAt(t: string, k: int)
    requires 0 <= k < |t|
    requires k + 1 < |t| && IsWordChar(t[k + 1])
    ensures !SpacesToBoundary(t, k + 1) || !IsWordChar(t[k])
    ensures t[k + 1] != '.'
  {
    forall m | k + 1 <= m <= |t|
      ensures IsWordChar(t[k]) ==> !(AllSpace(t[k + 1..m]) && WordBoundary(t, m))
    {
      if m > k + 1 {
        assert t[k + 1..m][0] == t[k + 1];
      }
    }
  }

  /** The `v` the pattern uses must be followed by a dot, white space or the
      end of a word: after `v\.?\s*` comes `\b`, and the `v` is a word
      character. So when every V of a title is followed by a word character,
      as in "vs.", there is no match. */
  lemma VersusNeedsWordEnd(t: string)
    requires forall k | 0 <= k < |t| :: Lower(t[k]) == 'v' ==> k + 1 < |t| && IsWordChar(t[k + 1])
    ensures !IsUSParty(t)
  {
    forall k | 0 <= k < |t| && Lower(t[k]) == 'v'
      ensures !SpacesToBoundary(t, k + 1) && t[k + 1] != '.'
    {
      VersusAt(t, k);
    }
    forall j | 0 <= j <= |t|
      ensures !VersusFrom(t, j)
    {
    }
  }

  /** "vs." is not recognised: the spelled-out government name followed by
      "vs." lands in "Other Cases". */
  lemma VsDoesNotMatch()
    ensures !IsUSParty("United States of America vs. Smith")
    ensures !IsUSParty("USA vs. Smith")
  {
    VersusNeedsWordEnd("United States of America vs. Smith");
    VersusNeedsWordEnd("USA vs. Smith");
  }

  lemma AbbreviatedUSDoesNotMatch()
    ensures !IsUSParty("U.S. v. Smith")
  {
    NoANoMatch("U.S. v. Smith");
  }

  /** The only party names at the start of "U.S.A. v. Smith" are "U.S.A" and
      "U.S.A.". */
  lemma DottedUSAPartyEnds(j: int)
    requires 0 <= j <= 15
    ensures IsPartyName("U.S.A. v. Smith"[0..j]) ==> j == 5 || j == 6
  {
    var t := "U.S.A. v. Smith";
    var s := t[0..j];
    if j >= 2 {
      assert s[1] == '.';
      assert !FoldEquals(s, "usa");
      assert j >= 6 ==> !FoldEquals(s[..6], "united");
    }
    if DottedLetters(s, "usa") {
      DottedLettersEnd(s, "usa");
      assert t[2] == 'S' && t[3] == '.' && t[4] == 'A' && t[5] == '.' && t[6] == ' ';
    }
  }

  /** The tail `\s*v...` starts with white space or a `v`. */
  lemma VersusFromStart(t: string, j: int)
    requires 0 <= j <= |t|
    ensures VersusFrom(t, j) ==> j < |t| && (IsSpace(t[j]) || Lower(t[j]) == 'v')
  {
    if VersusFrom(t, j) {
      var k :| j <= k < |t| && AllSpace(t[j..k]) && Lower(t[k]) == 'v' && AfterVersus(t, k);
      if k > j {
        assert t[j..k][0] == t[j];
      }
    }
  }

  /** Only the first character of "U.S.A. v. Smith" is a U. */
  lemma DottedUSAOneU(i: int)
    requires 0 <= i < 15
    ensures Lower("U.S.A. v. Smith"[i]) == 'u' ==> i == 0
  {
  }

  /** No match of the pattern starts at the beginning of "U.S.A. v. Smith". */
  lemma DottedUSANoMatchAtStart(j: int)
    requires 0 <= j <= 15
    ensures var t := "U.S.A. v. Smith";
      !(IsPartyName(t[0..j]) && WordBoundary(t, j) && VersusFrom(t, j))
  {
    var t := "U.S.A. v. Smith";
    DottedUSAPartyEnds(j);
    VersusFromStart(t, j);
    assert t[4] == 'A' && t[5] == '.' && t[6] == ' ';
    assert j == 5 ==> !IsSpace(t[5]) && Lower(t[5]) != 'v';
    assert j == 6 ==> !WordBoundary(t, 6);
  }

  /** "U.S.A. v." is not recognised either: after the final dot there is no
      word boundary before the space, and without the dot the name is followed
      by a dot instead of spaces and a `v`. */
  lemma DottedUSADoesNotMatch()
    ensures !IsUSParty("U.S.A. v. Smith")
  {
    var t := "U.S.A. v. Smith";
    forall i | 0 <= i <= |t|
      ensures !MatchAt(t, i)
    {
      MatchStartsAtU(t, i);
      if i < |t| {
        DottedUSAOneU(i);
      }
      if i == 0 {
        forall j | 0 <= j <= |t|
          ensures !(IsPartyName(t[0..j]) && WordBoundary(t, j) && VersusFrom(t, j))
        {
          DottedUSANoMatchAtStart(j);
        }
      }
    }
  }
}
