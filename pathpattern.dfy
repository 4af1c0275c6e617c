/**
 * `RestfulHttpNode::compilePathRegEx`: a path pattern with `{name}`
 * placeholders becomes a regular expression with one named group per
 * placeholder, anchored at both ends.
 */
module PathPatterns {
  import B = Bytes
  import RewriteRules

  /** The first '}' at or after `i`, or `|s|`. */
  function CloseAt(s: string, i: nat): (r: nat)
    requires i <= |s|
    ensures i <= r <= |s|
    decreases |s| - i
  {
    if i == |s| || s[i] == '}' then i else CloseAt(s, i + 1)
  }

  /** `CloseAt` stops at the first '}'. */
  lemma {:induction false} CloseAtFirst(s: string, i: nat)
    requires i <= |s|
    ensures CloseAt(s, i) < |s| ==> s[CloseAt(s, i)] == '}'
    ensures '}' !in s[i..CloseAt(s, i)]
    decreases |s| - i
  {
    if i < |s| && s[i] != '}' {
      CloseAtFirst(s, i + 1);
      assert s[i..CloseAt(s, i)] == [s[i]] + s[i + 1..CloseAt(s, i)];
    }
  }

  /**
   * A match of `{([^}]+)}(.|$)` starting at `i`: the position of its '}' and
   * the end of the match. The name is everything up to the first '}' and
   * must not be empty; `.` takes one more character unless it is a line
   * feed, and `$` matches at the end or before a final line feed.
   */
  function PlaceholderAt(s: string, i: nat): (r: B.Option<(nat, nat)>)
    requires i <= |s|
    ensures r.Some? ==> i + 2 <= r.value.0 < r.value.1 <= |s| && r.value.1 <= r.value.0 + 2
  {
    if i < |s| && s[i] == '{' then
      var close := CloseAt(s, i + 1);
      if close == |s| || close == i + 1 then B.None
      else if close + 1 == |s| then B.Some((close, close + 1))
      else if s[close + 1] != '\n' then B.Some((close, close + 2))
      else if close + 2 == |s| then B.Some((close, close + 1))
      else B.None
    else B.None
  }

  /** A placeholder is '{', a name without '}', and the '}' that closes it. */
  lemma PlaceholderShapeOf(s: string, i: nat)
    requires i <= |s| && PlaceholderAt(s, i).Some?
    ensures s[i] == '{' && s[PlaceholderAt(s, i).value.0] == '}'
    ensures '}' !in s[i + 1..PlaceholderAt(s, i).value.0]
  {
    CloseAtFirst(s, i + 1);
  }

  /** Where the global match finds its next placeholder at or after `pos`, or `|s|`. */
  function NextPlaceholder(s: string, pos: nat): (i: nat)
    requires pos <= |s|
    ensures pos <= i <= |s| && (i < |s| ==> PlaceholderAt(s, i).Some?)
    decreases |s| - pos
  {
    if pos == |s| || PlaceholderAt(s, pos).Some? then pos else NextPlaceholder(s, pos + 1)
  }

  /**
   * `insertRegularExpression`: the named group for a placeholder, matching
   * up to the character that follows it, or everything when none does.
   */
  function InsertRegularExpression(name: string, follow: string): string
  {
    "(?<" + name + ">" + (if follow == "" then ".+)" else "[^" + follow + "]+)" + follow)
  }

  /** The pattern from `pos` on with every placeholder the global match finds replaced by its group. */
  function Compiled(s: string, pos: nat): string
    requires pos <= |s|
    decreases |s| - pos, 1
  {
    var i := NextPlaceholder(s, pos);
    s[pos..i] + GroupAt(s, i)
  }

  /** The group of the placeholder at `i` and the compiled text after it; nothing at the end. */
  function GroupAt(s: string, i: nat): string
    requires i <= |s| && (i < |s| ==> PlaceholderAt(s, i).Some?)
    decreases |s| - i, 0
  {
    if i == |s| then []
    else
      var p := PlaceholderAt(s, i).value;
      InsertRegularExpression(s[i + 1..p.0], s[p.0 + 1..p.1]) + Compiled(s, p.1)
  }

  /** `compilePathRegEx`: the pattern with its placeholders replaced, anchored at both ends. */
  method CompilePathRegEx(path: string) returns (rx: string)
    ensures rx == "^" + Compiled(path, 0) + "$"
    ensures |rx| >= 2 && rx[0] == '^' && rx[|rx| - 1] == '$'
  {
    var replaced := ReplaceInString(path);
    rx := "^" + replaced + "$";
  }

  /**
   * `replaceInString`: walks the global matches left to right, replacing
   * each in a copy of the pattern at its start shifted by what the earlier
   * replacements added or removed.
   */
  method ReplaceInString(path: string) returns (result: string)
    ensures result == Compiled(path, 0)
  {
    result := path;
    var offset := 0;
    var pos := 0;
    ghost var done := "";
    ghost var target := Compiled(path, 0);
    while NextPlaceholder(path, pos) < |path|
      invariant pos <= |path|
      invariant Scanned(path, pos, done, result, offset, target)
      decreases |path| - pos
    {
      result, offset, pos, done := ReplaceNextPlaceholder(path, pos, done, result, offset, target);
    }
    ScanFinished(path, pos, done, result, offset, target);
  }

  /** With no placeholder left after `pos`, the copy is the compiled pattern. */
  lemma ScanFinished(path: string, pos: nat, done: string, result: string, offset: int, target: string)
    requires pos <= |path| && NextPlaceholder(path, pos) >= |path|
    requires Scanned(path, pos, done, result, offset, target)
    ensures result == target
  {
    CompiledSplit(path, pos);
    assert path[pos..] + [] == path[pos..];
  }

  /**
   * The loop invariant of `replaceInString`: the pattern up to `pos` is
   * compiled (`done`), the rest of the copy is still the pattern, and
   * `offset` is how far the copy has shifted.
   */
  ghost predicate Scanned(path: string, pos: nat, done: string, result: string, offset: int, target: string)
  {
    pos <= |path| && target == done + Compiled(path, pos)
    && result == done + path[pos..] && offset == |done| - pos
  }

  /** One match of `replaceInString`: the next placeholder is replaced by its group. */
  method ReplaceNextPlaceholder(path: string, pos: nat, ghost done: string, result: string, offset: int,
                                ghost target: string)
    returns (result': string, offset': int, pos': nat, ghost done': string)
    requires pos <= |path| && NextPlaceholder(path, pos) < |path|
    requires Scanned(path, pos, done, result, offset, target)
    ensures pos < pos' && Scanned(path, pos', done', result', offset', target)
  {
    var i := NextPlaceholder(path, pos);
    var p := PlaceholderAt(path, i).value;
    var replaceWith := InsertRegularExpression(path[i + 1..p.0], path[p.0 + 1..p.1]);
    ScanStep(path, pos, done, result, offset, target, i, p.1, replaceWith);
    result' := result[..i + offset] + replaceWith + result[i + offset + (p.1 - i)..];
    offset' := offset + |replaceWith| - (p.1 - i);
    pos' := p.1;
    done' := done + path[pos..i] + replaceWith;
  }

  /** Replacing the match `[i, next)` at its shifted start keeps `Scanned`, now up to `next`. */
  lemma ScanStep(path: string, pos: nat, done: string, result: string, offset: int, target: string,
                 i: nat, next: nat, replaceWith: string)
    requires pos <= |path| && i == NextPlaceholder(path, pos) && i < |path|
    requires next == PlaceholderAt(path, i).value.1
    requires replaceWith == InsertRegularExpression(path[i + 1..PlaceholderAt(path, i).value.0],
                                                    path[PlaceholderAt(path, i).value.0 + 1..next])
    requires Scanned(path, pos, done, result, offset, target)
    ensures 0 <= i + offset <= i + offset + (next - i) <= |result|
    ensures Scanned(path, next, done + path[pos..i] + replaceWith,
                    result[..i + offset] + replaceWith + result[i + offset + (next - i)..],
                    offset + |replaceWith| - (next - i), target)
  {
    ScanSplit(path, pos, i, next, replaceWith);
    ShiftedSplice(path, done, pos, i, next, replaceWith, Compiled(path, next), result, offset, target);
  }

  /** The compiled rest at `pos`, cut at the next placeholder `[i, next)`. */
  lemma ScanSplit(path: string, pos: nat, i: nat, next: nat, replaceWith: string)
    requires pos <= |path| && i == NextPlaceholder(path, pos) && i < |path|
    requires next == PlaceholderAt(path, i).value.1
    requires replaceWith == InsertRegularExpression(path[i + 1..PlaceholderAt(path, i).value.0],
                                                    path[PlaceholderAt(path, i).value.0 + 1..next])
    ensures pos <= i < next <= |path|
    ensures Compiled(path, pos) == path[pos..i] + (replaceWith + Compiled(path, next))
  {
    CompiledAt(path, pos);
  }

  /** The string side of one replacement: `rest` stands for the compiled text after the match. */
  lemma ShiftedSplice(path: string, done: string, pos: nat, i: nat, next: nat, replaceWith: string,
                      rest: string, result: string, offset: int, target: string)
    requires pos <= i < next <= |path|
    requires target == done + (path[pos..i] + (replaceWith + rest))
    requires result == done + path[pos..] && offset == |done| - pos
    ensures 0 <= i + offset <= i + offset + (next - i) <= |result|
    ensures target == (done + path[pos..i] + replaceWith) + rest
    ensures result[..i + offset] + replaceWith + result[i + offset + (next - i)..]
         == (done + path[pos..i] + replaceWith) + path[next..]
    ensures offset + |replaceWith| - (next - i) == |done + path[pos..i] + replaceWith| - next
  {
    RewriteRules.Splice(path, done, pos, RewriteRules.Replacement(i, next - i, 0), replaceWith, result, offset);
  }

  /** Compiling from `pos` copies the text up to the next placeholder, inserts its group and goes on after it. */
  lemma CompiledAt(s: string, pos: nat)
    requires pos <= |s| && NextPlaceholder(s, pos) < |s|
    ensures var i := NextPlaceholder(s, pos);
            var p := PlaceholderAt(s, i).value;
            Compiled(s, pos) == s[pos..i] + (InsertRegularExpression(s[i + 1..p.0], s[p.0 + 1..p.1]) + Compiled(s, p.1))
  {
    CompiledSplit(s, pos);
  }

  /** A pattern without '{' from `pos` on is copied as it is. */
  lemma {:induction false} CompiledLiteral(s: string, pos: nat)
    requires pos <= |s| && '{' !in s[pos..]
    ensures Compiled(s, pos) == s[pos..]
  {
    assert forall k :: pos <= k < |s| ==> s[k] == s[pos..][k - pos];
  }

  /** Text without '{' before position `q` is copied, and compiling resumes at `q`. */
  lemma CompiledLiteralPrefix(s: string, pos: nat, q: nat)
    requires pos <= q <= |s| && '{' !in s[pos..q]
    ensures Compiled(s, pos) == s[pos..q] + Compiled(s, q)
  {
    NoPlaceholderBefore(s, pos, q);
    NextPlaceholderFrom(s, pos, q);
    CompiledSplit(s, pos);
    CompiledSplit(s, q);
    ConcatAt(s, pos, q, NextPlaceholder(s, q), GroupAt(s, NextPlaceholder(s, q)));
  }

  /** `Compiled` is the literal text up to the next placeholder, then its group. */
  lemma CompiledSplit(s: string, pos: nat)
    requires pos <= |s|
    ensures Compiled(s, pos) == s[pos..NextPlaceholder(s, pos)] + GroupAt(s, NextPlaceholder(s, pos))
  {
  }

  lemma ConcatAt(s: string, pos: nat, q: nat, i: nat, g: string)
    requires pos <= q <= i <= |s|
    ensures s[pos..i] + g == s[pos..q] + (s[q..i] + g)
  {
    assert s[pos..i] == s[pos..q] + s[q..i];
  }

  /** No placeholder starts where there is no '{'. */
  lemma NoPlaceholderBefore(s: string, pos: nat, q: nat)
    requires pos <= q <= |s| && '{' !in s[pos..q]
    ensures NextPlaceholder(s, pos) >= q
  {
    assert forall k :: pos <= k < q ==> s[k] == s[pos..q][k - pos];
  }

  /** No placeholder starts between `pos` and `q`, so the search from either finds the same one. */
  lemma {:induction false} NextPlaceholderFrom(s: string, pos: nat, q: nat)
    requires pos <= q <= |s| && NextPlaceholder(s, pos) >= q
    ensures NextPlaceholder(s, pos) == NextPlaceholder(s, q)
    decreases q - pos
  {
    if pos < q {
      NextPlaceholderFrom(s, pos + 1, q);
    }
  }

  /** "{name}c" with a non-empty name becomes a group matching anything but `c`, followed by `c`. */
  lemma PlaceholderFollowed(s: string, pos: nat, name: string, c: char)
    requires pos + |name| + 3 <= |s| && name != [] && '}' !in name && c != '\n'
    requires s[pos..pos + |name| + 3] == "{" + name + "}" + [c]
    ensures Compiled(s, pos)
         == "(?<" + name + ">[^" + [c] + "]+)" + [c] + Compiled(s, pos + |name| + 3)
  {
    var close, end := pos + |name| + 1, pos + |name| + 3;
    var w := s[pos..end];
    assert s[pos..close + 1] == w[..|name| + 2] == "{" + name + "}";
    PlaceholderShape(s, pos, name);
    assert s[close + 1] == w[|name| + 2] == c;
    assert PlaceholderAt(s, pos) == B.Some((close, end));
    assert NextPlaceholder(s, pos) == pos;
    assert s[close + 1..end] == [c];
    CompiledAt(s, pos);
    assert Compiled(s, pos) == InsertRegularExpression(name, [c]) + Compiled(s, end) by {
      assert s[pos..pos] == [];
    }
    GroupFollowed(name, c, Compiled(s, end));
  }

  lemma GroupFollowed(name: string, c: char, rest: string)
    ensures InsertRegularExpression(name, [c]) + rest == "(?<" + name + ">[^" + [c] + "]+)" + [c] + rest
  {
  }

  /** A trailing "{name}" becomes a group matching the rest of the path. */
  lemma PlaceholderAtEnd(s: string, pos: nat, name: string)
    requires pos + |name| + 2 == |s| && name != [] && '}' !in name
    requires s[pos..] == "{" + name + "}"
    ensures Compiled(s, pos) == "(?<" + name + ">.+)"
  {
    PlaceholderShape(s, pos, name);
    assert PlaceholderAt(s, pos) == B.Some((pos + |name| + 1, |s|));
    CompiledAt(s, pos);
    assert s[|s|..] == [];
  }

  /** The placeholder at `pos` spans the name and its closing brace. */
  lemma PlaceholderShape(s: string, pos: nat, name: string)
    requires name != [] && '}' !in name
    requires pos + |name| + 2 <= |s| && s[pos..pos + |name| + 2] == "{" + name + "}"
    ensures s[pos] == '{' && CloseAt(s, pos + 1) == pos + |name| + 1
    ensures s[pos + 1..pos + |name| + 1] == name
  {
    var w := s[pos..pos + |name| + 2];
    assert s[pos] == w[0] == '{';
    assert forall j :: 0 <= j < |name| ==> w[1..|name| + 1][j] == name[j];
    assert w[1..|name| + 1] == name;
    assert forall j :: 1 <= j <= |name| ==> w[j] == s[pos + j];
    assert s[pos + 1..pos + |name| + 1] == w[1..|name| + 1];
    assert s[pos + |name| + 1] == w[|name| + 1] == '}';
    CloseSkipsName(s, pos + 1, pos + |name| + 1);
  }

  lemma {:induction false} CloseSkipsName(s: string, i: nat, j: nat)
    requires i <= j < |s| && '}' !in s[i..j] && s[j] == '}'
    ensures CloseAt(s, i) == j
    decreases j - i
  {
    if i < j {
      assert s[i] == s[i..j][0];
      assert s[i + 1..j] == s[i..j][1..];
      CloseSkipsName(s, i + 1, j);
    }
  }
}
