/**
 * The rule machinery of `RewriteHttpNode`: back-references in a replacement
 * template ("\0" to "\99"), the substitution of a match into the template,
 * the first-match search over the rules in insertion order, and the path a
 * rewritten sub-path is routed as. The node itself (its rule list and its
 * `invokePath`) lives with `HttpNode` in module `HttpNodes`.
 */
module RewriteRules {
  import B = Bytes
  import opened QStrings

  /** A back-reference found in a template: where it starts, how long it is ("\n" or "\nn"), which capture. */
  datatype Replacement = Replacement(offset: nat, len: nat, idx: nat)

  /**
   * A `QRegularExpression`, seen through what the rewriting code asks of it:
   * its pattern and `captureCount()`, which is -1 for an invalid pattern.
   */
  datatype Regex = Regex(pattern: string, captureCount: int)

  /** A successful match: the captured groups, group 0 being the whole match. */
  datatype Match = Match(groups: seq<string>)
  {
    /** `QRegularExpressionMatch::captured(n)`: empty for a group that does not exist. */
    function Captured(n: nat): string
    {
      if n < |groups| then groups[n] else ""
    }
  }

  /** Matching is done by Qt's regular expression engine, which is a parameter of this model. */
  type Matcher = (Regex, string) -> B.Option<Match>

  datatype Rule = Rule(rx: Regex, replace: string, refs: seq<Replacement>)

  /** `RewriteHttpNode::RewriteBehaviour`; a new node rewrites the sub-path. */
  datatype Behaviour = RewriteSubpath | RewritePath

  predicate IsDigit(c: char) { '0' <= c <= '9' }

  function DigitValue(c: char): nat
    requires IsDigit(c)
  {
    (c as int - '0' as int) as nat
  }

  /** The length of the reference starting at `i` (0 if there is none): a backslash and one or two digits. */
  function RefLength(s: string, i: nat): (n: nat)
    ensures n == 0 || n == 2 || n == 3
    ensures n > 0 ==> i + n <= |s|
  {
    if i + 1 < |s| && s[i] == '\\' && IsDigit(s[i + 1]) then
      (if i + 2 < |s| && IsDigit(s[i + 2]) then 3 else 2)
    else 0
  }

  /** The capture number of the reference starting at `i`. */
  function RefIndex(s: string, i: nat): (n: nat)
    requires RefLength(s, i) > 0
    ensures n < 100
  {
    if RefLength(s, i) == 3 then DigitValue(s[i + 1]) * 10 + DigitValue(s[i + 2])
    else DigitValue(s[i + 1])
  }

  /** The references from position `i` on, left to right. */
  function RefsFrom(s: string, i: nat): seq<Replacement>
    decreases |s| - i
  {
    if i >= |s| then []
    else if RefLength(s, i) > 0 then [Replacement(i, RefLength(s, i), RefIndex(s, i))] + RefsFrom(s, i + 1)
    else RefsFrom(s, i + 1)
  }

  /** The highest capture number referenced, 0 when there is none. */
  function HighestRef(refs: seq<Replacement>): nat
  {
    if refs == [] then 0
    else var rest := HighestRef(refs[1..]); if refs[0].idx > rest then refs[0].idx else rest
  }

  /**
   * The references are in template order, do not overlap, start at or
   * after `pos` and end within a template of length `n`.
   */
  predicate Placed(refs: seq<Replacement>, pos: nat, n: nat)
  {
    refs == [] ||
    (pos <= refs[0].offset && refs[0].offset + refs[0].len <= n &&
     Placed(refs[1..], refs[0].offset + refs[0].len, n))
  }

  lemma PlacedWeaken(refs: seq<Replacement>, p: nat, q: nat, n: nat)
    requires Placed(refs, q, n) && p <= q
    ensures Placed(refs, p, n)
  {
  }

  /** Digits hold no backslash, so the scan after a reference's backslash may resume at its end. */
  lemma {:induction false} SkipDigits(s: string, i: nat, j: nat)
    requires i <= j <= |s|
    requires forall k :: i <= k < j ==> IsDigit(s[k])
    ensures RefsFrom(s, i) == RefsFrom(s, j)
    decreases j - i
  {
    if i < j {
      assert RefLength(s, i) == 0;
      SkipDigits(s, i + 1, j);
    }
  }

  /** The references from `i` on are in order and inside the template. */
  lemma {:induction false} RefsPlaced(s: string, i: nat)
    ensures Placed(RefsFrom(s, i), i, |s|)
    decreases |s| - i
  {
    if i < |s| {
      var len := RefLength(s, i);
      if len > 0 {
        SkipDigits(s, i + 1, i + len);
        RefsPlaced(s, i + len);
        var refs := RefsFrom(s, i);
        assert refs[1..] == RefsFrom(s, i + len);
        assert refs[0] == Replacement(i, len, RefIndex(s, i));
      } else {
        RefsPlaced(s, i + 1);
        PlacedWeaken(RefsFrom(s, i + 1), i, i + 1, |s|);
      }
    }
  }

  /**
   * Every recorded reference is a backslash followed by one or two digits
   * (two whenever a second digit follows), recorded with its number, and
   * every backslash followed by a digit is recorded.
   */
  lemma {:induction false} RefsFromExact(s: string, i: nat)
    ensures forall r :: r in RefsFrom(s, i) ==>
              i <= r.offset && RefLength(s, r.offset) == r.len > 0 && r.idx == RefIndex(s, r.offset)
    ensures forall j :: i <= j < |s| && RefLength(s, j) > 0 ==> exists r :: r in RefsFrom(s, i) && r.offset == j
    decreases |s| - i
  {
    if i < |s| {
      RefsFromExact(s, i + 1);
      if RefLength(s, i) > 0 {
        var r := Replacement(i, RefLength(s, i), RefIndex(s, i));
        assert RefsFrom(s, i) == [r] + RefsFrom(s, i + 1);
        forall j | i <= j < |s| && RefLength(s, j) > 0
          ensures exists r' :: r' in RefsFrom(s, i) && r'.offset == j
        {
          if j == i { assert r in RefsFrom(s, i); }
        }
      }
    }
  }

  /**
   * `replaceReferences`: scans the template for backslashes, recording each
   * one followed by a digit (two digits when a second follows), and raises
   * `highest` to the largest capture number recorded.
   */
  method ReplaceReferences(str: string, highestRef: int) returns (list: seq<Replacement>, highest: int)
    ensures list == RefsFrom(str, 0)
    ensures highest == if list != [] && HighestRef(list) > highestRef then HighestRef(list) else highestRef
  {
    list := [];
    highest := highestRef;
    var idx := 0;
    while idx < |str|
      invariant 0 <= idx <= |str|
      invariant list + RefsFrom(str, idx) == RefsFrom(str, 0)
      invariant highest == if list != [] && HighestRef(list) > highestRef then HighestRef(list) else highestRef
    {
      if str[idx] == '\\' {
        var len := 1;
        var ref := 0;
        if |str| - (idx + 1) > 0 && IsDigit(str[idx + 1]) {
          ref := DigitValue(str[idx + 1]);
          len := len + 1;
          if |str| - (idx + 1) > 1 && IsDigit(str[idx + 2]) {
            ref := ref * 10 + DigitValue(str[idx + 2]);
            len := len + 1;
          }
        }
        if len > 1 {
          var r := Replacement(idx, len, ref);
          assert RefsFrom(str, idx) == [r] + RefsFrom(str, idx + 1);
          HighestRefSnoc(list, r);
          list := list + [r];
          if ref > highest { highest := ref; }
        }
      }
      idx := idx + 1;
    }
  }

  lemma {:induction false} HighestRefSnoc(refs: seq<Replacement>, r: Replacement)
    ensures HighestRef(refs + [r]) == if r.idx > HighestRef(refs) then r.idx else HighestRef(refs)
  {
    if refs != [] {
      assert (refs + [r])[1..] == refs[1..] + [r];
      HighestRefSnoc(refs[1..], r);
    } else {
      assert [r][1..] == [];
    }
  }

  /** `HighestRef` is the largest capture number: it bounds every reference and one reference reaches it. */
  lemma {:induction false} HighestRefIsMax(refs: seq<Replacement>)
    ensures forall r :: r in refs ==> r.idx <= HighestRef(refs)
    ensures refs != [] ==> exists r :: r in refs && r.idx == HighestRef(refs)
  {
    if refs != [] {
      HighestRefIsMax(refs[1..]);
      assert refs == [refs[0]] + refs[1..];
      if refs[0].idx <= HighestRef(refs[1..]) && refs[1..] != [] {
        var w :| w in refs[1..] && w.idx == HighestRef(refs[1..]);
        assert w in refs;
      } else {
        assert refs[0] in refs;
      }
    }
  }

  /** The template from `pos` on with its references filled in: each gap, then the capture the reference names. */
  function Rest(repl: string, refs: seq<Replacement>, m: Match, pos: nat): string
    requires Placed(refs, pos, |repl|) && pos <= |repl|
  {
    if refs == [] then repl[pos..]
    else repl[pos..refs[0].offset] + m.Captured(refs[0].idx) + Rest(repl, refs[1..], m, refs[0].offset + refs[0].len)
  }

  /** The whole substituted template. */
  function Fill(repl: string, refs: seq<Replacement>, m: Match): string
    requires Placed(refs, 0, |repl|)
  {
    Rest(repl, refs, m, 0)
  }

  /**
   * `replaceMatch`: replaces the references left to right in a copy of the
   * template, shifting each later offset by what the earlier replacements
   * added or removed.
   */
  method ReplaceMatch(m: Match, repl: string, refs: seq<Replacement>) returns (result: string)
    requires Placed(refs, 0, |repl|)
    ensures result == Fill(repl, refs, m)
  {
    result := repl;
    var offset := 0;
    var i := 0;
    ghost var filled := "";
    ghost var end: nat := 0;
    ghost var target := Fill(repl, refs, m);
    assert refs[0..] == refs;
    while i < |refs|
      invariant Progress(repl, refs, m, i, end, filled, result, offset, target)
      decreases |refs| - i
    {
      result, offset, end, filled := ReplaceNext(m, repl, refs, i, end, filled, result, offset, target);
      i := i + 1;
    }
    assert refs[i..] == [];
  }

  /**
   * The loop invariant of `replaceMatch`: the first `i` references are filled
   * in (`filled`, up to template position `end`), the rest of the copy is
   * still the template, and `offset` is how far the copy has shifted.
   */
  ghost predicate Progress(repl: string, refs: seq<Replacement>, m: Match, i: nat, end: nat, filled: string,
                           result: string, offset: int, target: string)
  {
    i <= |refs| && end <= |repl| && Placed(refs[i..], end, |repl|)
    && target == filled + Rest(repl, refs[i..], m, end)
    && result == filled + repl[end..] && offset == |filled| - end
  }

  /** One iteration of `replaceMatch`: the next reference is replaced at its shifted offset. */
  method ReplaceNext(m: Match, repl: string, refs: seq<Replacement>, i: nat, ghost end: nat, ghost filled: string,
                     result: string, offset: int, ghost target: string)
    returns (result': string, offset': int, ghost end': nat, ghost filled': string)
    requires i < |refs| && Progress(repl, refs, m, i, end, filled, result, offset, target)
    ensures Progress(repl, refs, m, i + 1, end', filled', result', offset', target)
  {
    var r := refs[i];
    var insert := m.Captured(r.idx);
    Step(repl, refs, m, i, end, filled, result, offset, target);
    result' := result[..r.offset + offset] + insert + result[r.offset + offset + r.len..];
    offset' := offset + |insert| - r.len;
    filled' := filled + repl[end..r.offset] + insert;
    end' := r.offset + r.len;
  }

  /** One iteration of `replaceMatch` keeps `Progress`. */
  lemma Step(repl: string, refs: seq<Replacement>, m: Match, i: nat, end: nat, filled: string,
             result: string, offset: int, target: string)
    requires i < |refs| && Progress(repl, refs, m, i, end, filled, result, offset, target)
    ensures end <= refs[i].offset && refs[i].offset + refs[i].len <= |repl|
    ensures 0 <= refs[i].offset + offset <= refs[i].offset + offset + refs[i].len <= |result|
    ensures Progress(repl, refs, m, i + 1, refs[i].offset + refs[i].len,
                     filled + repl[end..refs[i].offset] + m.Captured(refs[i].idx),
                     result[..refs[i].offset + offset] + m.Captured(refs[i].idx) + result[refs[i].offset + offset + refs[i].len..],
                     offset + |m.Captured(refs[i].idx)| - refs[i].len, target)
  {
    Advance(repl, refs, i, m, end, filled);
    Splice(repl, filled, end, refs[i], m.Captured(refs[i].idx), result, offset);
  }

  /** Filling the next reference moves its gap and capture from the rest to the filled part. */
  lemma Advance(repl: string, refs: seq<Replacement>, i: nat, m: Match, end: nat, filled: string)
    requires i < |refs| && end <= |repl| && Placed(refs[i..], end, |repl|)
    ensures end <= refs[i].offset && refs[i].offset + refs[i].len <= |repl|
    ensures Placed(refs[i + 1..], refs[i].offset + refs[i].len, |repl|)
    ensures filled + Rest(repl, refs[i..], m, end)
         == (filled + repl[end..refs[i].offset] + m.Captured(refs[i].idx))
            + Rest(repl, refs[i + 1..], m, refs[i].offset + refs[i].len)
  {
    assert refs[i..][0] == refs[i] && refs[i..][1..] == refs[i + 1..];
  }

  /** One step of `replaceMatch`: replacing at the shifted offset splices the capture after the gap. */
  lemma Splice(repl: string, done: string, end: nat, r: Replacement, insert: string, result: string, offset: int)
    requires end <= r.offset && r.offset + r.len <= |repl|
    requires result == done + repl[end..] && offset == |done| - end
    ensures 0 <= r.offset + offset <= r.offset + offset + r.len <= |result|
    ensures result[..r.offset + offset] + insert + result[r.offset + offset + r.len..]
         == (done + repl[end..r.offset] + insert) + repl[r.offset + r.len..]
  {
    assert result[..r.offset + offset] == done + repl[end..r.offset];
    assert result[r.offset + offset + r.len..] == repl[r.offset + r.len..];
  }

  /**
   * The reference reading of a template: copy it character by character,
   * except that a backslash followed by one or two digits stands for the
   * capture with that number.
   */
  function Render(repl: string, m: Match, pos: nat): string
    decreases |repl| - pos
  {
    if pos >= |repl| then ""
    else if RefLength(repl, pos) > 0 then m.Captured(RefIndex(repl, pos)) + Render(repl, m, pos + RefLength(repl, pos))
    else [repl[pos]] + Render(repl, m, pos + 1)
  }

  /**
   * Substituting the references `replaceReferences` recorded yields the
   * template with every reference replaced by its capture and all other
   * text kept, as the tests' expected rewrites show.
   */
  lemma FillIsRender(repl: string, m: Match)
    ensures Placed(RefsFrom(repl, 0), 0, |repl|)
    ensures Fill(repl, RefsFrom(repl, 0), m) == Render(repl, m, 0)
  {
    RefsPlaced(repl, 0);
    RestIsRender(repl, m, 0);
  }

  lemma {:induction false} RestIsRender(repl: string, m: Match, pos: nat)
    requires pos <= |repl| && Placed(RefsFrom(repl, pos), pos, |repl|)
    ensures Rest(repl, RefsFrom(repl, pos), m, pos) == Render(repl, m, pos)
    decreases |repl| - pos
  {
    var refs := RefsFrom(repl, pos);
    if pos == |repl| {
      assert refs == [];
    } else if RefLength(repl, pos) > 0 {
      var len := RefLength(repl, pos);
      RefsPlaced(repl, pos + len);
      RestIsRender(repl, m, pos + len);
      RestAtRef(repl, m, pos);
    } else {
      assert refs == RefsFrom(repl, pos + 1);
      RefsPlaced(repl, pos + 1);
      RestIsRender(repl, m, pos + 1);
      GapShift(repl, refs, m, pos);
    }
  }

  /** At a reference, the substituted rest starts with its capture and resumes after its digits. */
  lemma RestAtRef(repl: string, m: Match, pos: nat)
    requires pos < |repl| && RefLength(repl, pos) > 0
    requires Placed(RefsFrom(repl, pos), pos, |repl|)
    ensures Placed(RefsFrom(repl, pos + RefLength(repl, pos)), pos + RefLength(repl, pos), |repl|)
    ensures Rest(repl, RefsFrom(repl, pos), m, pos)
         == m.Captured(RefIndex(repl, pos)) + Rest(repl, RefsFrom(repl, pos + RefLength(repl, pos)), m, pos + RefLength(repl, pos))
  {
    var len := RefLength(repl, pos);
    SkipDigits(repl, pos + 1, pos + len);
    RefsPlaced(repl, pos + len);
    assert RefsFrom(repl, pos)[1..] == RefsFrom(repl, pos + len);
  }

  /** Starting one character earlier, before the first reference, adds that character in front. */
  lemma GapShift(repl: string, refs: seq<Replacement>, m: Match, pos: nat)
    requires pos < |repl|
    requires Placed(refs, pos + 1, |repl|)
    ensures Placed(refs, pos, |repl|)
    ensures Rest(repl, refs, m, pos) == [repl[pos]] + Rest(repl, refs, m, pos + 1)
  {
    if refs == [] {
      assert repl[pos..] == [repl[pos]] + repl[pos + 1..];
    } else {
      var gap := repl[pos + 1..refs[0].offset];
      var more := m.Captured(refs[0].idx) + Rest(repl, refs[1..], m, refs[0].offset + refs[0].len);
      assert repl[pos..refs[0].offset] == [repl[pos]] + gap;
      assert Rest(repl, refs, m, pos) == ([repl[pos]] + gap) + more;
      assert Rest(repl, refs, m, pos + 1) == gap + more;
    }
  }

  /** The index of the first rule (in insertion order) whose expression matches, or `|rules|`. */
  function FirstMatching(rules: seq<Rule>, path: string, matcher: Matcher): (i: nat)
    ensures i <= |rules|
    ensures i < |rules| ==> matcher(rules[i].rx, path).Some?
    ensures forall j :: 0 <= j < i ==> matcher(rules[j].rx, path).None?
  {
    if rules == [] then 0
    else if matcher(rules[0].rx, path).Some? then 0
    else 1 + FirstMatching(rules[1..], path, matcher)
  }

  /** Every stored rule carries the references of its own template. */
  predicate WellFormed(rules: seq<Rule>)
  {
    forall i :: 0 <= i < |rules| ==> rules[i].refs == RefsFrom(rules[i].replace, 0)
  }

  /** The path after `findMatchingRule`: the first matching rule's substitution, or nothing. */
  function Rewritten(rules: seq<Rule>, path: string, matcher: Matcher): (r: B.Option<string>)
    requires WellFormed(rules)
    ensures r.Some? <==> exists i :: 0 <= i < |rules| && matcher(rules[i].rx, path).Some?
  {
    var i := FirstMatching(rules, path, matcher);
    if i == |rules| then B.None
    else
      RefsPlaced(rules[i].replace, 0);
      B.Some(Fill(rules[i].replace, rules[i].refs, matcher(rules[i].rx, path).value))
  }

  /**
   * The first matching rule decides the rewrite, even when a later rule
   * also matches, and the result is that rule's template with its
   * references filled in from that match.
   */
  lemma FirstRuleWins(rules: seq<Rule>, path: string, matcher: Matcher, i: nat)
    requires WellFormed(rules)
    requires i < |rules| && matcher(rules[i].rx, path).Some?
    requires forall j :: 0 <= j < i ==> matcher(rules[j].rx, path).None?
    ensures Rewritten(rules, path, matcher) == B.Some(Render(rules[i].replace, matcher(rules[i].rx, path).value, 0))
  {
    FirstMatchingIs(rules, path, matcher, i);
    FillIsRender(rules[i].replace, matcher(rules[i].rx, path).value);
  }

  lemma {:induction false} FirstMatchingIs(rules: seq<Rule>, path: string, matcher: Matcher, i: nat)
    requires i < |rules| && matcher(rules[i].rx, path).Some?
    requires forall j :: 0 <= j < i ==> matcher(rules[j].rx, path).None?
    ensures FirstMatching(rules, path, matcher) == i
  {
    if i > 0 {
      FirstMatchingIs(rules[1..], path, matcher, i - 1);
    }
  }

  /**
   * `findMatchingRule`: tries the rules in insertion order and rewrites the
   * path with the first that matches; without a match the path is kept.
   */
  method FindMatchingRule(rules: seq<Rule>, path: string, matcher: Matcher) returns (found: bool, newPath: string)
    requires WellFormed(rules)
    ensures found <==> Rewritten(rules, path, matcher).Some?
    ensures newPath == if found then Rewritten(rules, path, matcher).value else path
  {
    var i := 0;
    while i < |rules|
      invariant 0 <= i <= |rules|
      invariant forall j :: 0 <= j < i ==> matcher(rules[j].rx, path).None?
    {
      var m := matcher(rules[i].rx, path);
      if m.Some? {
        FirstMatchingIs(rules, path, matcher, i);
        RefsPlaced(rules[i].replace, 0);
        newPath := ReplaceMatch(m.value, rules[i].replace, rules[i].refs);
        return true, newPath;
      }
      i := i + 1;
    }
    return false, path;
  }

  /** `addRewrite`'s check: a valid expression with every referenced capture present. */
  predicate Acceptable(rx: Regex, replace: string)
  {
    rx.captureCount != -1 && HighestRef(RefsFrom(replace, 0)) <= rx.captureCount
  }

  /** "foo(bar)" has one capture, so the template "\2" is refused. */
  lemma UnknownCaptureRefused()
    ensures !Acceptable(Regex("foo(bar)", 1), "\\2")
  {
    assert RefLength("\\2", 0) == 2;
    assert RefsFrom("\\2", 1) == [];
    assert RefsFrom("\\2", 0) == [Replacement(0, 2, 2)];
  }

  /** The sub-path a rewrite node at `index` matches against: the sections from `index` on. */
  function Subpath(path: string, length: int, index: nat): string
  {
    if length > 0 then Section(path, '/', index, -1) else ""
  }

  /**
   * The parent path as `rewriteSubpathAndInvoke` computes it: sections 0 to
   * `index - 1`. For `index == 0` the end field -1 counts from the right, so
   * the whole path is taken.
   */
  function ParentPathAsWritten(path: string, length: int, index: nat): string
  {
    if length > 0 then Section(path, '/', 0, index - 1) else ""
  }

  /** The parent path as intended: the sections before the node's own, none at the root. */
  function ParentPath(path: string, length: int, index: nat): string
  {
    if length > 0 && index > 0 then Section(path, '/', 0, index - 1) else ""
  }

  /** The rewritten request path: the parent path between slashes, then the rewritten sub-path. */
  function JoinedPath(parent: string, sub: string): (r: string)
    ensures |r| > 0 && r[0] == '/'
  {
    var p1 := if |parent| > 0 && parent[0] == '/' then parent else "/" + parent;
    var p2 := if p1[|p1| - 1] == '/' then p1 else p1 + "/";
    p2 + sub
  }

  /** The path routed again after a subpath rewrite, or nothing when no rule matches. */
  function SubpathTarget(rules: seq<Rule>, path: string, length: int, index: nat, matcher: Matcher): B.Option<string>
    requires WellFormed(rules)
  {
    var sub := Rewritten(rules, Subpath(path, length, index), matcher);
    if sub.None? then B.None else B.Some(JoinedPath(ParentPath(path, length, index), sub.value))
  }

  /**
   * At index 1 of "/r/foo" the node "r" matches "foo" and keeps "r" as the
   * parent, so a rewrite of "foo" to "echo/bar" is routed as "/r/echo/bar".
   */
  lemma SubpathOfChild()
    ensures Subpath("/r/foo", 2, 1) == "foo"
    ensures ParentPath("/r/foo", 2, 1) == "r"
    ensures JoinedPath(ParentPath("/r/foo", 2, 1), "echo/bar") == "/r/echo/bar"
  {
    SplitChildPath();
  }

  /** "/r/foo" has the fields "", "r" and "foo". */
  lemma SplitChildPath()
    ensures Split("/r/foo", '/') == ["", "r", "foo"]
  {
    SplitNoSep("foo", '/');
    assert "/r/foo"[1..] == "r/foo";
    assert "r/foo"[1..] == "/foo";
    assert "/foo"[1..] == "foo";
    assert ['r'] + "" == "r";
  }

  /**
   * A rewrite node at the root (index 0) of "/foo": as written its parent
   * path is the whole path, so a rewrite of "foo" to "bar" is routed as
   * "/foo/bar"; the intended parent path is empty, giving "/bar".
   */
  lemma RootParentAsWritten()
    ensures ParentPathAsWritten("/foo", 1, 0) == "foo"
    ensures JoinedPath(ParentPathAsWritten("/foo", 1, 0), "bar") == "/foo/bar"
    ensures ParentPath("/foo", 1, 0) == ""
    ensures JoinedPath(ParentPath("/foo", 1, 0), "bar") == "/bar"
  {
    SplitNoSep("foo", '/');
    assert "/foo"[1..] == "foo";
    assert Split("/foo", '/') == ["", "foo"];
  }

  /** At the root the rewritten sub-path is routed as it stands, below "/". */
  lemma RootTargetIsRewrittenPath(rules: seq<Rule>, path: string, length: int, matcher: Matcher)
    requires WellFormed(rules)
    ensures var sub := Rewritten(rules, Subpath(path, length, 0), matcher);
            SubpathTarget(rules, path, length, 0, matcher) == if sub.None? then B.None else B.Some("/" + sub.value)
  {
    assert ParentPath(path, length, 0) == "";
    forall sub: string ensures JoinedPath("", sub) == "/" + sub {
      assert ("/" + "")[0] == '/';
    }
  }
}
