/**
 * What Tpm::Trim (src/modules/tpm/src/lib/Tpm.cpp) computes: leading and trailing ' ' characters removed.
 * Only the space character counts; tabs and line breaks are kept.
 */
module Spaces {
  import opened Common

  predicate AllSpaces(s: string) {
    forall i :: 0 <= i < |s| ==> s[i] == ' '
  }

  /** std::string::find(c): the first index holding c, or npos. */
  function Find(s: string, c: char): (k: int)
    ensures k == NPOS || (0 <= k < |s| && s[k] == c && c !in s[..k])
    ensures k == NPOS ==> (c !in s || |s| > NPOS)
    decreases |s|
  {
    if |s| == 0 then NPOS
    else if s[0] == c then 0
    else
      var k := Find(s[1..], c);
      if k == NPOS then NPOS
      else
        assert s[..k + 1] == [s[0]] + s[1..][..k];
        k + 1
  }

  /** std::string::rfind(c): the last index holding c, or npos. */
  function RFind(s: string, c: char): (k: int)
    ensures k == NPOS || (0 <= k < |s| && s[k] == c && c !in s[k + 1..])
    ensures k == NPOS ==> (c !in s || |s| > NPOS)
    decreases |s|
  {
    if |s| == 0 then NPOS
    else if s[|s| - 1] == c then |s| - 1
    else
      var k := RFind(s[..|s| - 1], c);
      if k != NPOS then
        assert s[k + 1..] == s[..|s| - 1][k + 1..] + [s[|s| - 1]];
        k
      else
        assert s == s[..|s| - 1] + [s[|s| - 1]];
        NPOS
  }

  /** For a std::string, find(" ") == 0 says exactly that the first char is a space. */
  lemma FindSpaceAtStart(s: StdString)
    ensures Find(s, ' ') == 0 <==> s != "" && s[0] == ' '
  {
  }

  /**
   * For a std::string, rfind(" ") equals size() - 1 (wrapping to npos on the empty string) exactly when the
   * string is empty or ends with a space.
   */
  lemma RFindSpaceAtEnd(s: StdString)
    ensures RFind(s, ' ') == (if s == "" then NPOS else |s| - 1) <==> s == "" || s[|s| - 1] == ' '
  {
    if s != "" && s[|s| - 1] == ' ' {
      assert ' ' in s;
    }
  }

  /** The string without its maximal run of leading spaces. */
  function DropLeadingSpaces(s: string): (r: string)
    ensures |r| <= |s| && r == s[|s| - |r|..]
    ensures r != "" ==> r[0] != ' '
  {
    if |s| > 0 && s[0] == ' ' then DropLeadingSpaces(s[1..]) else s
  }

  /** What the leading-space scan cuts off is spaces only. */
  lemma {:induction false} DropLeadingCutsSpaces(s: string)
    ensures AllSpaces(s[..|s| - |DropLeadingSpaces(s)|])
  {
    if |s| > 0 && s[0] == ' ' {
      var t := s[1..];
      var r := DropLeadingSpaces(t);
      DropLeadingCutsSpaces(t);
      assert DropLeadingSpaces(s) == r;
      var cut := t[..|t| - |r|];
      assert AllSpaces(cut);
      assert s[..|s| - |r|] == [' '] + cut;
      SpaceThenSpaces(cut);
    }
  }

  /** A space in front of a string of spaces gives a string of spaces. */
  lemma SpaceThenSpaces(s: string)
    requires AllSpaces(s)
    ensures AllSpaces([' '] + s)
  {
  }

  /** The string without its maximal run of trailing spaces. */
  function DropTrailingSpaces(s: string): (r: string)
    ensures |r| <= |s| && r == s[..|r|]
    ensures r != "" ==> r[|r| - 1] != ' '
  {
    if |s| > 0 && s[|s| - 1] == ' ' then DropTrailingSpaces(s[..|s| - 1]) else s
  }

  /** What the trailing-space scan cuts off is spaces only. */
  lemma {:induction false} DropTrailingCutsSpaces(s: string)
    ensures AllSpaces(s[|DropTrailingSpaces(s)|..])
  {
    if |s| > 0 && s[|s| - 1] == ' ' {
      var t := s[..|s| - 1];
      var r := DropTrailingSpaces(t);
      DropTrailingCutsSpaces(t);
      assert DropTrailingSpaces(s) == r;
      forall i | |r| <= i < |s|
        ensures s[i] == ' '
      {
        if i < |s| - 1 {
          assert s[i] == t[|r|..][i - |r|];
        }
      }
    }
  }

  /** The string with its leading and trailing spaces removed. */
  function TrimSpaces(s: string): (r: string)
    ensures |r| <= |s|
    ensures r != "" ==> r[0] != ' ' && r[|r| - 1] != ' '
  {
    DropTrailingSpaces(DropLeadingSpaces(s))
  }

  /** The length of the maximal run of leading spaces. */
  function LeadingSpaceCount(s: string): nat
  {
    |s| - |DropLeadingSpaces(s)|
  }

  /** Only all-space strings lose everything to the leading-space scan. */
  lemma DropLeadingEmptyIffAllSpaces(s: string)
    ensures DropLeadingSpaces(s) == "" <==> AllSpaces(s)
  {
    var r := DropLeadingSpaces(s);
    if |r| == 0 {
      DropLeadingCutsSpaces(s);
      assert s[..|s| - |r|] == s;
    } else {
      assert r[0] == s[|s| - |r|] != ' ';
    }
  }

  /** A string that starts with a non-space keeps that character through the trailing-space scan. */
  lemma DropTrailingKeepsNonSpaceStart(s: string)
    requires s != "" && s[0] != ' '
    ensures DropTrailingSpaces(s) != ""
  {
  }

  /**
   * Trim's result is the contiguous piece of the input left between a run of leading spaces and a run of
   * trailing spaces, and it neither starts nor ends with a space.
   */
  lemma TrimSpacesIsInnerSlice(s: string)
    ensures LeadingSpaceCount(s) + |TrimSpaces(s)| <= |s|
    ensures TrimSpaces(s) == s[LeadingSpaceCount(s)..LeadingSpaceCount(s) + |TrimSpaces(s)|]
    ensures AllSpaces(s[..LeadingSpaceCount(s)])
    ensures AllSpaces(s[LeadingSpaceCount(s) + |TrimSpaces(s)|..])
    ensures TrimSpaces(s) != "" ==> TrimSpaces(s)[0] != ' ' && TrimSpaces(s)[|TrimSpaces(s)| - 1] != ' '
  {
    var m := DropLeadingSpaces(s);
    var r := DropTrailingSpaces(m);
    var i := |s| - |m|;
    DropLeadingCutsSpaces(s);
    DropTrailingCutsSpaces(m);
    assert r == TrimSpaces(s) && i == LeadingSpaceCount(s);
    assert r == s[i..i + |r|] by {
      assert m == s[i..];
      assert r == m[..|r|];
    }
    assert AllSpaces(s[i + |r|..]) by {
      assert s[i + |r|..] == m[|r|..];
    }
    assert r != "" ==> r[0] != ' ' by {
      if r != "" {
        assert r[0] == m[0];
      }
    }
  }

  /** Trimming only removes characters: a char absent from the input is absent from the result. */
  lemma TrimSpacesAddsNothing(s: string, c: char)
    requires c !in s
    ensures c !in TrimSpaces(s)
  {
    var m := DropLeadingSpaces(s);
    var r := DropTrailingSpaces(m);
    forall j | 0 <= j < |r|
      ensures r[j] != c
    {
      assert r[j] == m[j] == s[|s| - |m| + j];
    }
  }

  /** Trimming twice is trimming once. */
  lemma TrimSpacesIdempotent(s: string)
    ensures TrimSpaces(TrimSpaces(s)) == TrimSpaces(s)
  {
    var r := TrimSpaces(s);
    TrimSpacesIsInnerSlice(s);
    assert DropLeadingSpaces(r) == r;
  }

  /** A string that neither starts nor ends with ' ' is left alone, whatever other blanks it holds. */
  lemma TrimSpacesKeepsOtherBlanks(s: string)
    requires s == "" || (s[0] != ' ' && s[|s| - 1] != ' ')
    ensures TrimSpaces(s) == s
  {
  }
}
