/**
 * The few `QString`/`QStringList` operations the routing code relies on:
 * splitting on a separator (keeping or skipping empty parts), joining,
 * `section` with `SectionSkipEmpty`, and the ordering of `QMap<QString, T>`
 * keys (ordinal, a proper prefix first).
 */
module QStrings {

  /** `QString::split(sep, KeepEmptyParts)`: always at least one part. */
  function Split(s: string, sep: char): (r: seq<string>)
    ensures |r| >= 1
    ensures forall i :: 0 <= i < |r| ==> sep !in r[i]
  {
    if |s| == 0 then [""]
    else
      var rest := Split(s[1..], sep);
      if s[0] == sep then [""] + rest
      else [[s[0]] + rest[0]] + rest[1..]
  }

  /** A string without the separator is a single part. */
  lemma {:induction false} SplitNoSep(s: string, sep: char)
    requires sep !in s
    ensures Split(s, sep) == [s]
  {
    if |s| > 0 {
      SplitNoSep(s[1..], sep);
      assert [s[0]] + s[1..] == s;
    }
  }

  /** A leading separator starts with an empty part. */
  lemma SplitLeadingSep(s: string, sep: char)
    requires |s| > 0 && s[0] == sep
    ensures Split(s, sep) == [""] + Split(s[1..], sep)
  {
  }

  /** `QStringList::join(sep)`. */
  function Join(parts: seq<string>, sep: char): string
  {
    if |parts| == 0 then ""
    else if |parts| == 1 then parts[0]
    else parts[0] + [sep] + Join(parts[1..], sep)
  }

  /** Joining the parts of a split gives the string back. */
  lemma {:induction false} SplitJoin(s: string, sep: char)
    ensures Join(Split(s, sep), sep) == s
  {
    if |s| > 0 {
      SplitJoin(s[1..], sep);
      var rest := Split(s[1..], sep);
      if s[0] == sep {
        assert s == [sep] + s[1..];
      } else if |rest| == 1 {
        assert s == [s[0]] + s[1..];
      } else {
        assert [[s[0]] + rest[0]] + rest[1..] == [[s[0]] + rest[0]] + rest[1..];
        assert Join(rest, sep) == rest[0] + [sep] + Join(rest[1..], sep);
        assert s == [s[0]] + s[1..];
      }
    }
  }

  /** A part without the separator, then the separator: the part comes off the front of the split. */
  lemma {:induction false} SplitAfterPart(a: string, b: string, sep: char)
    requires sep !in a
    ensures Split(a + [sep] + b, sep) == [a] + Split(b, sep)
  {
    var s := a + [sep] + b;
    if a == [] {
      assert s[1..] == b;
    } else {
      assert s[1..] == a[1..] + [sep] + b;
      SplitAfterPart(a[1..], b, sep);
      assert [a[0]] + a[1..] == a;
    }
  }

  /** Splitting what was joined from parts without the separator gives the parts back. */
  lemma {:induction false} JoinSplit(parts: seq<string>, sep: char)
    requires |parts| >= 1 && forall i :: 0 <= i < |parts| ==> sep !in parts[i]
    ensures Split(Join(parts, sep), sep) == parts
  {
    if |parts| == 1 {
      SplitNoSep(parts[0], sep);
    } else {
      JoinSplit(parts[1..], sep);
      SplitAfterPart(parts[0], Join(parts[1..], sep), sep);
      assert [parts[0]] + parts[1..] == parts;
    }
  }

  /** The non-empty parts, in order. */
  function NonEmpty(parts: seq<string>): (r: seq<string>)
    ensures forall i :: 0 <= i < |r| ==> r[i] != []
    ensures |r| <= |parts|
  {
    if |parts| == 0 then []
    else (if parts[0] == [] then [] else [parts[0]]) + NonEmpty(parts[1..])
  }

  /** `QString::split(sep, SkipEmptyParts)`. */
  function SplitSkipEmpty(s: string, sep: char): (r: seq<string>)
    ensures forall i :: 0 <= i < |r| ==> r[i] != [] && sep !in r[i]
  {
    var r := NonEmpty(Split(s, sep));
    NonEmptyKeeps(Split(s, sep), sep);
    r
  }

  lemma {:induction false} NonEmptyKeeps(parts: seq<string>, sep: char)
    requires forall i :: 0 <= i < |parts| ==> sep !in parts[i]
    ensures forall i :: 0 <= i < |NonEmpty(parts)| ==> sep !in NonEmpty(parts)[i]
  {
    if |parts| > 0 {
      NonEmptyKeeps(parts[1..], sep);
    }
  }

  /** The number of empty parts. */
  function EmptyCount(parts: seq<string>): (n: nat)
    ensures n <= |parts|
  {
    if |parts| == 0 then 0 else (if parts[0] == [] then 1 else 0) + EmptyCount(parts[1..])
  }

  /**
   * The loop of `QString::section` under `SectionSkipEmpty`: `x` counts the
   * non-empty sections seen so far; every section from field `start` to field
   * `end` is appended, preceded by the separator unless it is the first.
   */
  function SectionLoop(secs: seq<string>, i: nat, x: int, start: int, end: int, sep: char, acc: string): string
    decreases |secs| - i
  {
    if i >= |secs| || x > end then acc
    else
      var acc' := if x >= start then (if x > start && i > 0 then acc + [sep] else acc) + secs[i] else acc;
      SectionLoop(secs, i + 1, if secs[i] != [] then x + 1 else x, start, end, sep, acc')
  }

  /**
   * `QString::section(sep, start, end, SectionSkipEmpty)`: a negative field
   * number counts from the right over the non-empty fields, -1 being the last.
   */
  function Section(s: string, sep: char, start: int, end: int): string
  {
    var secs := Split(s, sep);
    var fields := |secs| - EmptyCount(secs);
    var from := if start < 0 then start + fields else start;
    var to := if end < 0 then end + fields else end;
    if from >= |secs| || to < 0 || from > to then ""
    else SectionLoop(secs, 0, 0, from, to, sep, "")
  }

  /** Ordinal order of `QString` keys, a proper prefix first. */
  predicate Less(a: string, b: string)
  {
    if |a| == 0 then |b| > 0
    else if |b| == 0 then false
    else a[0] < b[0] || (a[0] == b[0] && Less(a[1..], b[1..]))
  }

  lemma {:induction false} LessIrreflexive(a: string)
    ensures !Less(a, a)
  {
    if |a| > 0 { LessIrreflexive(a[1..]); }
  }

  lemma {:induction false} LessTotal(a: string, b: string)
    ensures Less(a, b) || a == b || Less(b, a)
  {
    if |a| > 0 && |b| > 0 && a[0] == b[0] {
      LessTotal(a[1..], b[1..]);
      if a[1..] == b[1..] {
        assert a == [a[0]] + a[1..] && b == [b[0]] + b[1..];
      }
    }
  }

  lemma {:induction false} LessAsymmetric(a: string, b: string)
    requires Less(a, b)
    ensures !Less(b, a) && a != b
  {
    if |a| > 0 && |b| > 0 && a[0] == b[0] {
      LessAsymmetric(a[1..], b[1..]);
    }
    if a == b { LessIrreflexive(a); }
  }

  lemma {:induction false} LessTransitive(a: string, b: string, c: string)
    requires Less(a, b) && Less(b, c)
    ensures Less(a, c)
  {
    if |a| > 0 && a[0] == b[0] && b[0] == c[0] {
      LessTransitive(a[1..], b[1..], c[1..]);
    }
  }
}
