/**
 * The handful of Python `str` operations the pipeline relies on, written
 * over `seq<char>`: `lower`, `strip`, `in`, `startswith`/`endswith`,
 * `replace`, `split`, `join` and `rsplit(sep, 1)`.
 */
module Strings {
  import opened Wrappers

  /** Python's `str.isspace` on one character: the characters `strip()`
      removes when called without arguments. */
  predicate IsSpace(c: char)
  {
    || c == ' ' || c == '\t' || c == '\n' || c == '\r' || c == '\U{000B}' || c == '\U{000C}'
    || ('\U{001C}' <= c <= '\U{001F}') || c == '\U{0085}' || c == '\U{00A0}' || c == '\U{1680}'
    || ('\U{2000}' <= c <= '\U{200A}') || c == '\U{2028}' || c == '\U{2029}' || c == '\U{202F}'
    || c == '\U{205F}' || c == '\U{3000}'
  }

  /** Python's `str.lower` on one character, for ASCII and Latin-1. */
  function LowerChar(c: char): char
  {
    if 'A' <= c <= 'Z' || ('À' <= c <= 'Þ' && c != '×') then
      (c as int + 32) as char
    else c
  }

  /** Python's `str.lower`, character by character. */
  function Lower(s: string): (r: string)
    ensures |r| == |s|
    ensures forall i :: 0 <= i < |s| ==> r[i] == LowerChar(s[i])
  {
    seq(|s|, i requires 0 <= i < |s| => LowerChar(s[i]))
  }

  /** Python's `s.startswith(p)`. */
  predicate StartsWith(s: string, p: string)
  {
    |p| <= |s| && s[..|p|] == p
  }

  /** Python's `s.endswith(p)`. */
  predicate EndsWith(s: string, p: string)
  {
    |p| <= |s| && s[|s| - |p|..] == p
  }

  /** `p` occurs in `s` starting at index `i`. */
  predicate OccursAt(p: string, s: string, i: int)
  {
    0 <= i && i + |p| <= |s| && s[i..i + |p|] == p
  }

  /** Python's `p in s`: `p` occurs in `s` at some position. */
  predicate IsSubstring(p: string, s: string)
  {
    exists i :: 0 <= i <= |s| - |p| && OccursAt(p, s, i)
  }

  /** An occurrence of a longer string carries one of each of its prefixes. */
  lemma PrefixOccurs(p: string, q: string, s: string)
    requires StartsWith(q, p) && IsSubstring(q, s)
    ensures IsSubstring(p, s)
  {
    var i :| 0 <= i <= |s| - |q| && OccursAt(q, s, i);
    assert s[i..i + |q|] == q;
    assert s[i..i + |p|] == s[i..i + |q|][..|p|];
    assert OccursAt(p, s, i);
  }

  /** Python's `lstrip()`: drops the leading whitespace and nothing else
      (`StripLeftDrops` says what is dropped). */
  function StripLeft(s: string): (r: string)
    ensures |r| <= |s|
    ensures r == [] || !IsSpace(r[0])
    decreases |s|
  {
    if s != [] && IsSpace(s[0]) then StripLeft(s[1..]) else s
  }

  /** `lstrip()` keeps a suffix and drops only whitespace. */
  lemma {:induction false} StripLeftDrops(s: string)
    ensures var r := StripLeft(s);
      r == s[|s| - |r|..] && forall i :: 0 <= i < |s| - |r| ==> IsSpace(s[i])
    decreases |s|
  {
    if s != [] && IsSpace(s[0]) {
      StripLeftDrops(s[1..]);
    }
  }

  /** Python's `rstrip()`: drops the trailing whitespace and nothing else
      (`StripRightDrops` says what is dropped). */
  function StripRight(s: string): (r: string)
    ensures |r| <= |s|
    ensures r == [] || !IsSpace(r[|r| - 1])
    decreases |s|
  {
    if s != [] && IsSpace(s[|s| - 1]) then StripRight(s[..|s| - 1]) else s
  }

  /** `rstrip()` keeps a prefix and drops only whitespace. */
  lemma {:induction false} StripRightDrops(s: string)
    ensures var r := StripRight(s);
      r == s[..|r|] && forall i :: |r| <= i < |s| ==> IsSpace(s[i])
    decreases |s|
  {
    if s != [] && IsSpace(s[|s| - 1]) {
      StripRightDrops(s[..|s| - 1]);
    }
  }

  /** Python's `strip()`. */
  function Strip(s: string): (r: string)
    ensures |r| <= |s|
    ensures r == [] || (!IsSpace(r[0]) && !IsSpace(r[|r| - 1]))
  {
    StripRightDrops(StripLeft(s));
    StripRight(StripLeft(s))
  }

  /** A string ending in whitespace strictly shrinks when stripped. */
  lemma StripDropsTrailingSpace(s: string)
    requires s != [] && IsSpace(s[|s| - 1])
    ensures |Strip(s)| < |s|
  {
    var l := StripLeft(s);
    StripLeftDrops(s);
    if |l| == |s| {
      assert l == s;
      assert |StripRight(l)| < |l|;
    }
  }

  /** Python's `s.replace(pat, rep)`: every non-overlapping occurrence of
      `pat`, scanning left to right, is replaced by `rep`. */
  function ReplaceAll(s: string, pat: string, rep: string): string
    requires pat != []
    decreases |s|
  {
    if |s| < |pat| then s
    else if s[..|pat|] == pat then rep + ReplaceAll(s[|pat|..], pat, rep)
    else [s[0]] + ReplaceAll(s[1..], pat, rep)
  }

  /** Replacing a pattern that does not occur changes nothing. */
  lemma {:induction false} ReplaceAbsent(s: string, pat: string, rep: string)
    requires pat != [] && !IsSubstring(pat, s)
    ensures ReplaceAll(s, pat, rep) == s
    decreases |s|
  {
    if |s| >= |pat| {
      assert !OccursAt(pat, s, 0);
      assert !IsSubstring(pat, s[1..]) by {
        forall i | OccursAt(pat, s[1..], i)
          ensures OccursAt(pat, s, i + 1)
        {
          assert s[1..][i..i + |pat|] == s[i + 1..i + 1 + |pat|];
        }
      }
      ReplaceAbsent(s[1..], pat, rep);
    }
  }

  /** Replacing a one-character pattern by text without that character
      leaves none of it behind. */
  lemma {:induction false} ReplaceCharRemoves(s: string, c: char, rep: string)
    requires c !in rep
    ensures c !in ReplaceAll(s, [c], rep)
    decreases |s|
  {
    if |s| >= 1 {
      ReplaceCharRemoves(s[1..], c, rep);
      assert s[..1] == [s[0]];
      assert s[1..] == s[|[c]|..];
    }
  }

  /** A character in neither the string nor the replacement does not appear
      after the replacement. */
  lemma {:induction false} ReplaceKeepsAbsent(s: string, pat: string, rep: string, d: char)
    requires pat != [] && d !in s && d !in rep
    ensures d !in ReplaceAll(s, pat, rep)
    decreases |s|
  {
    if |s| >= |pat| {
      if s[..|pat|] == pat {
        assert forall k :: 0 <= k < |s[|pat|..]| ==> s[|pat|..][k] == s[k + |pat|];
        ReplaceKeepsAbsent(s[|pat|..], pat, rep, d);
      } else {
        assert forall k :: 0 <= k < |s[1..]| ==> s[1..][k] == s[k + 1];
        ReplaceKeepsAbsent(s[1..], pat, rep, d);
      }
    }
  }

  /** An occurrence in `s[1..]` is one in `s`, one place further on. */
  lemma OccursInTail(pat: string, s: string, j: nat)
    requires s != []
    ensures OccursAt(pat, s[1..], j) <==> OccursAt(pat, s, j + 1)
  {
    if j + |pat| <= |s| - 1 {
      assert s[1..][j..j + |pat|] == s[j + 1..j + 1 + |pat|];
    }
  }

  /** When the only occurrence of `pat` is at the very end, replacing
      replaces just that one. */
  lemma {:induction false} ReplaceOnlyAtEnd(s: string, pat: string, rep: string)
    requires pat != [] && EndsWith(s, pat)
    requires forall j :: 0 <= j < |s| - |pat| ==> !OccursAt(pat, s, j)
    ensures ReplaceAll(s, pat, rep) == s[..|s| - |pat|] + rep
    decreases |s|
  {
    if |s| == |pat| {
      assert s[..|pat|] == pat;
      assert s[|pat|..] == [];
    } else {
      assert !OccursAt(pat, s, 0);
      var t := s[1..];
      assert t[|t| - |pat|..] == s[|s| - |pat|..];
      forall j | 0 <= j < |t| - |pat|
        ensures !OccursAt(pat, t, j)
      {
        OccursInTail(pat, s, j);
      }
      ReplaceOnlyAtEnd(t, pat, rep);
      assert [s[0]] + t[..|t| - |pat|] == s[..|s| - |pat|];
    }
  }

  /** In "head - name", where `name` occurs only at the end, " - name"
      occurs only at the end too. */
  lemma TaggedNameOnlyAtEnd(head: string, name: string)
    requires name != []
    requires forall j :: 0 <= j < |head| + 3 ==> !OccursAt(name, head + " - " + name, j)
    ensures var text := head + " - " + name;
      forall j :: 0 <= j < |text| - |" - " + name| ==> !OccursAt(" - " + name, text, j)
  {
    var text := head + " - " + name;
    var pat := " - " + name;
    forall j | 0 <= j < |text| - |pat|
      ensures !OccursAt(pat, text, j)
    {
      if OccursAt(pat, text, j) {
        assert text[j + 3..j + 3 + |name|] == text[j..j + |pat|][3..];
        assert OccursAt(name, text, j + 3);
      }
    }
  }

  /** In "head - name", where `name` occurs only at the end, `head` does
      not contain `name`. */
  lemma TaggedNameNotInHead(head: string, name: string)
    requires forall j :: 0 <= j < |head| + 3 ==> !OccursAt(name, head + " - " + name, j)
    ensures !IsSubstring(name, head)
  {
    var text := head + " - " + name;
    forall i | OccursAt(name, head, i)
      ensures OccursAt(name, text, i)
    {
      assert text[i..i + |name|] == head[i..i + |name|];
    }
  }

  /** Deleting " - name" from "head - name", where `name` occurs only at
      the end, leaves `head`. */
  lemma DeleteTaggedName(head: string, name: string)
    requires name != []
    requires forall j :: 0 <= j < |head| + 3 ==> !OccursAt(name, head + " - " + name, j)
    ensures ReplaceAll(head + " - " + name, " - " + name, "") == head
  {
    var pat := " - " + name;
    var text := head + " - " + name;
    assert text == head + pat;
    assert text[|text| - |pat|..] == pat;
    TaggedNameOnlyAtEnd(head, name);
    ReplaceOnlyAtEnd(text, pat, "");
    assert text[..|text| - |pat|] + "" == head;
  }

  /** Deleting " - name" and then `name` from "head - name", where `name`
      occurs only at the end, leaves `head`; `name` does occur in it. */
  lemma DeleteTrailingName(head: string, name: string)
    requires name != []
    requires forall j :: 0 <= j < |head| + 3 ==> !OccursAt(name, head + " - " + name, j)
    ensures IsSubstring(name, head + " - " + name)
    ensures ReplaceAll(ReplaceAll(head + " - " + name, " - " + name, ""), name, "") == head
  {
    var text := head + " - " + name;
    assert text[|text| - |name|..] == name;
    assert OccursAt(name, text, |text| - |name|);
    DeleteTaggedName(head, name);
    TaggedNameNotInHead(head, name);
    ReplaceAbsent(head, name, "");
  }

  /** Deleting a pattern never makes a string longer. */
  lemma {:induction false} DeleteShrinks(s: string, pat: string)
    requires pat != []
    ensures |ReplaceAll(s, pat, [])| <= |s|
    decreases |s|
  {
    if |s| >= |pat| {
      if s[..|pat|] == pat {
        DeleteShrinks(s[|pat|..], pat);
      } else {
        DeleteShrinks(s[1..], pat);
      }
    }
  }

  /** Python's `s.split(sep)` for a one-character separator: always at
      least one piece, none containing the separator. */
  function Split(s: string, sep: char): (r: seq<string>)
    ensures |r| >= 1
    ensures forall i :: 0 <= i < |r| ==> sep !in r[i]
    decreases |s|
  {
    if s == [] then [[]]
    else
      var rest := Split(s[1..], sep);
      if s[0] == sep then [[]] + rest
      else [[s[0]] + rest[0]] + rest[1..]
  }

  /** Python's `sep.join(parts)`. */
  function Join(parts: seq<string>, sep: string): string
    decreases |parts|
  {
    if parts == [] then []
    else if |parts| == 1 then parts[0]
    else parts[0] + sep + Join(parts[1..], sep)
  }

  /** Joining the pieces of a split with the same separator gives back the
      original string. */
  lemma {:induction false} JoinSplit(s: string, sep: char)
    ensures Join(Split(s, sep), [sep]) == s
    decreases |s|
  {
    if s != [] {
      var rest := Split(s[1..], sep);
      JoinSplit(s[1..], sep);
      if s[0] != sep && |rest| > 1 {
        assert Join(rest, [sep]) == rest[0] + [sep] + Join(rest[1..], [sep]);
        assert ([[s[0]] + rest[0]] + rest[1..])[1..] == rest[1..];
      }
      if s[0] == sep {
        assert ([[]] + rest)[1..] == rest;
      }
    }
  }

  /** Occurrences in `s` minus its last character are the occurrences in
      `s` that end before that character. */
  lemma OccursInDropLast(pat: string, s: string, j: int)
    requires s != []
    ensures OccursAt(pat, s[..|s| - 1], j) <==> OccursAt(pat, s, j) && j + |pat| < |s|
  {
    if 0 <= j && j + |pat| < |s| {
      assert s[..|s| - 1][j..j + |pat|] == s[j..j + |pat|];
    }
  }

  /** Python's `s.rfind(pat)`: the start of the last occurrence of `pat`,
      or `None` when there is none. */
  function RFind(s: string, pat: string): (r: Option<nat>)
    ensures r.None? <==> !IsSubstring(pat, s)
    ensures r.Some? ==> OccursAt(pat, s, r.value)
    ensures r.Some? ==> forall j :: r.value < j ==> !OccursAt(pat, s, j)
    decreases |s|
  {
    if |s| < |pat| then None
    else if s[|s| - |pat|..] == pat then
      assert OccursAt(pat, s, |s| - |pat|);
      Some(|s| - |pat|)
    else
      var r := RFind(s[..|s| - 1], pat);
      assert forall j :: OccursAt(pat, s, j) <==> OccursAt(pat, s[..|s| - 1], j) by {
        forall j
          ensures OccursAt(pat, s, j) <==> OccursAt(pat, s[..|s| - 1], j)
        {
          OccursInDropLast(pat, s, j);
        }
      }
      assert IsSubstring(pat, s) ==> IsSubstring(pat, s[..|s| - 1]) by {
        if IsSubstring(pat, s) {
          var i :| 0 <= i <= |s| - |pat| && OccursAt(pat, s, i);
          assert OccursAt(pat, s[..|s| - 1], i);
        }
      }
      assert IsSubstring(pat, s[..|s| - 1]) ==> IsSubstring(pat, s) by {
        if IsSubstring(pat, s[..|s| - 1]) {
          var i :| 0 <= i <= |s| - 1 - |pat| && OccursAt(pat, s[..|s| - 1], i);
          assert OccursAt(pat, s, i);
        }
      }
      r
  }
}
