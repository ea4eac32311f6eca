/**
 * The string operations of the Rust standard library that the commit
 * comparison relies on: searching for a character, substring containment
 * (`str::contains`), splitting on a delimiter (`str::split`) and splitting
 * into lines (`str::lines`). Strings are sequences of characters.
 */
module Text {
  import opened Wrappers

  /** Number of occurrences of `c` in `s`. */
  function Occurrences(s: string, c: char): nat {
    multiset(s)[c]
  }

  /** The index of the first occurrence of `c` in `s`, if any. */
  function Find(s: string, c: char): (r: Option<nat>)
    ensures r.None? <==> c !in s
    ensures r.Some? ==> r.value < |s| && s[r.value] == c && c !in s[..r.value]
  {
    if |s| == 0 then None
    else if s[0] == c then Some(0)
    else
      match Find(s[1..], c)
      case None => None
      case Some(k) =>
        assert s[..k + 1] == [s[0]] + s[1..][..k];
        Some(k + 1)
  }

  /** The first occurrence of `c` in `a + [c] + b` is the one after `a`, when `a` has none. */
  lemma FindAfterPrefix(a: string, c: char, b: string)
    requires c !in a
    ensures Find(a + [c] + b, c) == Some(|a|)
  {
    var s := a + [c] + b;
    var k := Find(s, c).value;
    assert s[..|a|] == a;
    assert s[|a|] == c;
    assert k <= |a| ==> s[k] in a + [c];
  }

  /** Occurrences are additive over concatenation. */
  lemma OccurrencesSplitAt(s: string, i: nat, c: char)
    requires i < |s|
    ensures Occurrences(s, c) == Occurrences(s[..i], c) + Occurrences([s[i]], c) + Occurrences(s[i + 1..], c)
  {
    assert s == s[..i] + [s[i]] + s[i + 1..];
  }

  // ---------------------------------------------------------------------
  // Substring containment (`str::contains` with a string pattern)
  // ---------------------------------------------------------------------

  /** `p` is a prefix of `s`. */
  predicate IsPrefix(p: string, s: string) {
    |p| <= |s| && p == s[..|p|]
  }

  /** `needle` occurs somewhere in `s`; the empty needle occurs in every string. */
  predicate Contains(s: string, needle: string)
    decreases |s|
  {
    IsPrefix(needle, s) || (|s| > 0 && Contains(s[1..], needle))
  }

  /** `needle` occurs in `s` starting at index `i`. */
  ghost predicate OccursAt(s: string, needle: string, i: int) {
    0 <= i && i + |needle| <= |s| && s[i..i + |needle|] == needle
  }

  /** The recursive search agrees with the positional definition of a substring. */
  lemma {:induction false} ContainsIffOccurs(s: string, needle: string)
    ensures Contains(s, needle) <==> exists i :: OccursAt(s, needle, i)
    decreases |s|
  {
    if Contains(s, needle) {
      if IsPrefix(needle, s) {
        assert OccursAt(s, needle, 0);
      } else {
        ContainsIffOccurs(s[1..], needle);
        var i :| OccursAt(s[1..], needle, i);
        assert s[1..][i..i + |needle|] == s[i + 1..i + 1 + |needle|];
        assert OccursAt(s, needle, i + 1);
      }
    }
    forall i | OccursAt(s, needle, i)
      ensures Contains(s, needle)
    {
      if i == 0 {
        assert IsPrefix(needle, s);
      } else {
        ContainsIffOccurs(s[1..], needle);
        assert s[1..][i - 1..i - 1 + |needle|] == s[i..i + |needle|];
        assert OccursAt(s[1..], needle, i - 1);
      }
    }
  }

  /** A string that lacks a character cannot contain a needle that has it. */
  lemma {:induction false} ContainsKeepsCharacters(s: string, needle: string, c: char)
    requires Contains(s, needle)
    requires c in needle
    ensures c in s
    decreases |s|
  {
    if IsPrefix(needle, s) {
      var k :| 0 <= k < |needle| && needle[k] == c;
      assert s[k] == c;
    } else {
      ContainsKeepsCharacters(s[1..], needle, c);
    }
  }

  // ---------------------------------------------------------------------
  // Splitting on a delimiter (`str::split` with a char pattern)
  // ---------------------------------------------------------------------

  /**
   * The maximal delimiter-free pieces of `s`, in order. There is always
   * one more piece than there are delimiters, so the empty string yields
   * one empty piece and adjacent delimiters yield an empty piece between them.
   */
  function Split(s: string, sep: char): (fields: seq<string>)
    ensures |fields| == Occurrences(s, sep) + 1
    ensures forall i :: 0 <= i < |fields| ==> sep !in fields[i]
    decreases |s|
  {
    match Find(s, sep)
    case None => [s]
    case Some(i) =>
      OccurrencesSplitAt(s, i, sep);
      [s[..i]] + Split(s[i + 1..], sep)
  }

  /** The pieces glued back together with `sep` between consecutive pieces. */
  function Join(fields: seq<string>, sep: char): string
    requires |fields| > 0
  {
    if |fields| == 1 then fields[0] else fields[0] + [sep] + Join(fields[1..], sep)
  }

  /** Joining the pieces of a split restores the original string. */
  lemma {:induction false} JoinSplit(s: string, sep: char)
    ensures Join(Split(s, sep), sep) == s
    decreases |s|
  {
    match Find(s, sep)
    case None =>
    case Some(i) =>
      JoinSplit(s[i + 1..], sep);
      assert s == s[..i] + [sep] + s[i + 1..];
  }

  /** Splitting a join of delimiter-free pieces gives the pieces back. */
  lemma {:induction false} SplitJoin(fields: seq<string>, sep: char)
    requires |fields| > 0
    requires forall i :: 0 <= i < |fields| ==> sep !in fields[i]
    ensures Split(Join(fields, sep), sep) == fields
    decreases |fields|
  {
    if |fields| == 1 {
      assert Find(fields[0], sep) == None;
    } else {
      SplitCons(fields[0], sep, Join(fields[1..], sep));
      SplitJoin(fields[1..], sep);
      assert fields == [fields[0]] + fields[1..];
    }
  }

  /** A delimiter-free first piece is split off unchanged. */
  lemma SplitCons(a: string, sep: char, b: string)
    requires sep !in a
    ensures Split(a + [sep] + b, sep) == [a] + Split(b, sep)
  {
    var s := a + [sep] + b;
    FindAfterPrefix(a, sep, b);
    assert s[..|a|] == a;
    assert s[|a| + 1..] == b;
  }

  // ---------------------------------------------------------------------
  // Splitting into lines (`str::lines`)
  // ---------------------------------------------------------------------

  /** Removes one trailing carriage return, if present. */
  function StripCarriageReturn(line: string): string {
    if |line| > 0 && line[|line| - 1] == '\r' then line[..|line| - 1] else line
  }

  /**
   * The lines of `s`: pieces ended by `\n` (a `\r` just before that `\n`
   * is dropped with it), followed by the final unterminated piece when it
   * is not empty. A trailing line feed therefore adds no empty line, and
   * the empty string has no lines.
   */
  function Lines(s: string): (lines: seq<string>)
    ensures forall i :: 0 <= i < |lines| ==> '\n' !in lines[i]
    ensures |lines| == Occurrences(s, '\n') + (if |s| > 0 && s[|s| - 1] != '\n' then 1 else 0)
    decreases |s|
  {
    if |s| == 0 then []
    else
      match Find(s, '\n')
      case None => [s]
      case Some(i) =>
        OccurrencesSplitAt(s, i, '\n');
        assert |s[i + 1..]| > 0 ==> s[i + 1..][|s[i + 1..]| - 1] == s[|s| - 1];
        [StripCarriageReturn(s[..i])] + Lines(s[i + 1..])
  }

  /** Every line followed by a line feed, as a log printer writes them. */
  function Terminated(lines: seq<string>): string {
    if |lines| == 0 then "" else lines[0] + "\n" + Terminated(lines[1..])
  }

  /** A line that `Lines` can give back unchanged: no line feed, no trailing carriage return. */
  predicate PlainLine(line: string) {
    '\n' !in line && StripCarriageReturn(line) == line
  }

  /** A plain first line ended by a line feed is split off unchanged. */
  lemma LinesCons(line: string, rest: string)
    requires PlainLine(line)
    ensures Lines(line + "\n" + rest) == [line] + Lines(rest)
  {
    var s := line + "\n" + rest;
    assert s == line + ['\n'] + rest;
    FindAfterPrefix(line, '\n', rest);
    assert s[..|line|] == line;
    assert s[|line| + 1..] == rest;
  }

  /** Splitting a sequence of terminated plain lines gives exactly those lines. */
  lemma {:induction false} LinesTerminated(lines: seq<string>)
    requires forall i :: 0 <= i < |lines| ==> PlainLine(lines[i])
    ensures Lines(Terminated(lines)) == lines
    decreases |lines|
  {
    if |lines| > 0 {
      LinesCons(lines[0], Terminated(lines[1..]));
      LinesTerminated(lines[1..]);
      assert lines == [lines[0]] + lines[1..];
    }
  }

  /** The final line feed is optional: adding one after a plain last line changes nothing. */
  lemma {:induction false} TrailingLineFeedOptional(s: string)
    requires |s| > 0 && s[|s| - 1] != '\n' && s[|s| - 1] != '\r'
    ensures Lines(s + "\n") == Lines(s)
    decreases |s|
  {
    var t := s + "\n";
    match Find(s, '\n')
    case None =>
      FindAfterPrefix(s, '\n', "");
      assert t == s + ['\n'] + "";
      assert t[..|s|] == s;
      assert t[|s| + 1..] == "";
    case Some(i) =>
      assert i < |s| - 1;
      assert s == s[..i] + ['\n'] + s[i + 1..];
      FindAfterPrefix(s[..i], '\n', s[i + 1..] + "\n");
      assert t == s[..i] + ['\n'] + (s[i + 1..] + "\n");
      assert t[..i] == s[..i];
      assert t[i + 1..] == s[i + 1..] + "\n";
      TrailingLineFeedOptional(s[i + 1..]);
  }
}
