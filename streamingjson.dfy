/**
 * `StreamingJsonHelper`: cuts a byte stream of concatenated JSON values into
 * single values without parsing them. It tracks string state and a stack of
 * open brackets. When the outermost bracket closes, the bytes since the last
 * value are queued as one element.
 */
module StreamingJson {
  import opened Bytes

  const OPEN_OBJECT: byte := 123   // '{'
  const CLOSE_OBJECT: byte := 125  // '}'
  const OPEN_ARRAY: byte := 91     // '['
  const CLOSE_ARRAY: byte := 93    // ']'
  const QUOTE: byte := 34          // '"'
  const BACKSLASH: byte := 92      // '\'

  /** The helper's verdict after a chunk. */
  datatype Status = ElementComplete | Premature | JsonError

  /**
   * `popStack`: the closing bracket `c` must match the innermost open
   * bracket. That bracket is removed even when it does not match. The
   * element is complete when the stack becomes empty.
   */
  function Pop(stack: seq<byte>, c: byte): (r: (seq<byte>, Status))
    ensures r.1 == JsonError <==> stack == [] || stack[|stack| - 1] != (if c == CLOSE_ARRAY then OPEN_ARRAY else OPEN_OBJECT)
    ensures stack != [] ==> r.0 == stack[..|stack| - 1]
    ensures stack == [] ==> r.0 == stack
    ensures r.1 == ElementComplete <==> |stack| == 1 && stack[0] == (if c == CLOSE_ARRAY then OPEN_ARRAY else OPEN_OBJECT)
  {
    if stack == [] then (stack, JsonError)
    else
      var expected := if c == CLOSE_ARRAY then OPEN_ARRAY else OPEN_OBJECT;
      var rest := stack[..|stack| - 1];
      if stack[|stack| - 1] != expected then (rest, JsonError)
      else (rest, if rest == [] then ElementComplete else Premature)
  }

  /**
   * The scanner state carried from byte to byte: the open brackets, whether
   * the bytes are inside a string, and whether the previous byte was an
   * escaping backslash.
   */
  datatype Scanner = Scanner(stack: seq<byte>, inString: bool, skip: bool)

  /** What one byte does to the scanner, and whether it completes an element or is an error. */
  function Step(s: Scanner, c: byte): (r: (Scanner, Status))
    ensures r.1 == JsonError ==> !s.skip && !s.inString && (c == CLOSE_OBJECT || c == CLOSE_ARRAY)
    ensures r.1 == ElementComplete ==> |s.stack| == 1 && r.0.stack == [] && !s.skip && !s.inString
    ensures r.1 != JsonError ==> r.0.skip == (!s.skip && c == BACKSLASH)
  {
    if s.skip then (s.(skip := false), Premature)
    else if c == BACKSLASH then (s.(skip := true), Premature)
    else if c == QUOTE then (s.(inString := !s.inString), Premature)
    else if s.inString then (s, Premature)
    else if c == OPEN_OBJECT || c == OPEN_ARRAY then (s.(stack := s.stack + [c]), Premature)
    else if c == CLOSE_OBJECT || c == CLOSE_ARRAY then
      var p := Pop(s.stack, c);
      (s.(stack := p.0), p.1)
    else (s, Premature)
  }

  /**
   * The state of a scan through part of a chunk:
   * - `base` is the buffered text that comes before this chunk. It becomes
   *   empty once an element has been cut off.
   * - `rest` is the part of the chunk since the last cut.
   * - `queue` is the element queue.
   */
  datatype Outcome = Outcome(scanner: Scanner, base: Bytes, rest: Bytes, queue: seq<Bytes>, failed: bool)

  /**
   * Scans `data` byte by byte. Every completed element `base + rest` is
   * queued. An error stops the scan at the offending byte.
   */
  function Run(s: Scanner, base: Bytes, rest: Bytes, queue: seq<Bytes>, data: Bytes): Outcome
    decreases |data|
  {
    if data == [] then Outcome(s, base, rest, queue, false)
    else
      var t := Step(s, data[0]);
      if t.1 == JsonError then Outcome(t.0, base, rest, queue, true)
      else if t.1 == ElementComplete then Run(t.0, [], [], queue + [base + rest + [data[0]]], data[1..])
      else Run(t.0, base, rest + [data[0]], queue, data[1..])
  }

  /** A scan only adds to the queue. */
  lemma {:induction false} RunExtends(s: Scanner, base: Bytes, rest: Bytes, queue: seq<Bytes>, data: Bytes)
    ensures var r := Run(s, base, rest, queue, data);
            |r.queue| >= |queue| && r.queue[..|queue|] == queue
    decreases |data|
  {
    if data != [] {
      var t := Step(s, data[0]);
      if t.1 == ElementComplete {
        var q := queue + [base + rest + [data[0]]];
        RunExtends(t.0, [], [], q, data[1..]);
        assert q[..|queue|] == queue;
      } else if t.1 != JsonError {
        RunExtends(t.0, base, rest + [data[0]], queue, data[1..]);
      }
    }
  }

  /** Scanning two pieces one after the other is scanning their concatenation. */
  lemma {:induction false} RunAppend(s: Scanner, base: Bytes, rest: Bytes, queue: seq<Bytes>, a: Bytes, b: Bytes)
    ensures var o := Run(s, base, rest, queue, a);
            Run(s, base, rest, queue, a + b) == if o.failed then o else Run(o.scanner, o.base, o.rest, o.queue, b)
    decreases |a|
  {
    if a != [] {
      assert (a + b)[0] == a[0] && (a + b)[1..] == a[1..] + b;
      var t := Step(s, a[0]);
      if t.1 == ElementComplete {
        RunAppend(t.0, [], [], queue + [base + rest + [a[0]]], a[1..], b);
      } else if t.1 != JsonError {
        RunAppend(t.0, base, rest + [a[0]], queue, a[1..], b);
      }
    } else {
      assert a + b == b;
    }
  }

  /** Without a completed element the scan only grows the current text. */
  lemma {:induction false} RunKeepsText(s: Scanner, base: Bytes, rest: Bytes, queue: seq<Bytes>, data: Bytes)
    ensures var o := Run(s, base, rest, queue, data);
            o.queue == queue && !o.failed ==> o.base == base && o.rest == rest + data
    decreases |data|
  {
    if data != [] {
      var t := Step(s, data[0]);
      if t.1 == ElementComplete {
        RunExtends(t.0, [], [], queue + [base + rest + [data[0]]], data[1..]);
      } else if t.1 != JsonError {
        RunKeepsText(t.0, base, rest + [data[0]], queue, data[1..]);
        assert rest + [data[0]] + data[1..] == rest + data;
      }
    }
  }

  /** The open brackets are never emptied by a byte that does not complete an element. */
  lemma {:induction false} RunKeepsDepth(s: Scanner, base: Bytes, rest: Bytes, queue: seq<Bytes>, data: Bytes)
    requires s.stack != []
    ensures var o := Run(s, base, rest, queue, data);
            o.queue == queue && !o.failed ==> o.scanner.stack != []
    decreases |data|
  {
    if data != [] {
      var t := Step(s, data[0]);
      if t.1 == ElementComplete {
        RunExtends(t.0, [], [], queue + [base + rest + [data[0]]], data[1..]);
      } else if t.1 != JsonError {
        RunKeepsDepth(t.0, base, rest + [data[0]], queue, data[1..]);
      }
    }
  }

  /** The helper's whole state: buffer, element queue, bracket stack, string flag, pending skip. */
  datatype Helper = Helper(buffer: Bytes, elements: seq<Bytes>, depthStack: seq<byte>, inString: bool, skipFirst: bool)

  /** A new helper: everything empty. */
  const Fresh := Helper([], [], [], false, false)

  /**
   * Whether the root-value case fires at the end of a chunk: bytes are left
   * since the last cut, no bracket is open and no string is open.
   */
  predicate RootValueLeft(o: Outcome)
  {
    o.rest != [] && o.scanner.stack == [] && !o.scanner.inString
  }

  /**
   * `appendData`: the state after one chunk, and the verdict. On an error,
   * the state is as far as the scan got and the chunk's rest is not
   * buffered. Otherwise the bytes since the last cut are buffered. When no
   * bracket or string is open they are also queued as a root value.
   */
  function Feed(h: Helper, data: Bytes): (r: (Helper, Status))
    ensures r.1 == JsonError || (r.1 == ElementComplete <==> r.0.elements != [])
    ensures |r.0.elements| >= |h.elements| && r.0.elements[..|h.elements|] == h.elements
  {
    RunExtends(Scanner(h.depthStack, h.inString, h.skipFirst), h.buffer, [], h.elements, data);
    var o := Run(Scanner(h.depthStack, h.inString, h.skipFirst), h.buffer, [], h.elements, data);
    if o.failed then (Helper(o.base, o.queue, o.scanner.stack, o.scanner.inString, false), JsonError)
    else
      var root := RootValueLeft(o);
      var elements := if root then o.queue + [o.base + o.rest] else o.queue;
      var buffer := (if root then [] else o.base) + o.rest;
      (Helper(buffer, elements, o.scanner.stack, o.scanner.inString, data != [] && o.scanner.skip),
       if elements == [] then Premature else ElementComplete)
  }

  /** The scan of a chunk, from the helper's state. */
  function Scan(h: Helper, data: Bytes): Outcome
  {
    Run(Scanner(h.depthStack, h.inString, h.skipFirst), h.buffer, [], h.elements, data)
  }

  /**
   * Chunking invariance. Feeding `a` and then `b` gives the same state as
   * feeding `a + b` at once. This needs three conditions:
   * - neither `a` nor `a + b` raises an error;
   * - after `a`, a bracket is still open or nothing is left since the
   *   last cut (so no root value is queued at the boundary);
   * - a pending escape is never followed by an empty chunk.
   */
  lemma FeedSplit(h: Helper, a: Bytes, b: Bytes)
    requires !Scan(h, a).failed && !Scan(h, a + b).failed
    requires Scan(h, a).scanner.stack != [] || Scan(h, a).rest == []
    requires a != [] || !h.skipFirst
    requires b != [] || !Scan(h, a).scanner.skip
    ensures Feed(Feed(h, a).0, b) == Feed(h, a + b)
  {
    var o1 := Scan(h, a);
    var h1 := Feed(h, a).0;
    assert !RootValueLeft(o1);
    var s1 := o1.scanner.(skip := a != [] && o1.scanner.skip);
    assert s1 == o1.scanner;
    RunAppend(Scanner(h.depthStack, h.inString, h.skipFirst), h.buffer, [], h.elements, a, b);
    // Run on b from o1, once with the old split of the text and once with it joined.
    var joined := Run(s1, o1.base + o1.rest, [], o1.queue, b);
    var split := Run(s1, o1.base, o1.rest, o1.queue, b);
    assert Scan(h1, b) == joined;
    assert Scan(h, a + b) == split;
    RunJoin(s1, o1.base, o1.rest, o1.queue, b);
    if split.queue == o1.queue && !split.failed {
      RunKeepsText(s1, o1.base, o1.rest, o1.queue, b);
      RunKeepsText(s1, o1.base + o1.rest, [], o1.queue, b);
      if o1.rest != [] {
        RunKeepsDepth(s1, o1.base, o1.rest, o1.queue, b);
      }
    }
  }

  /**
   * Where the current text is split between `base` and `rest` does not
   * change the queue or the scanner. After a cut both scans agree exactly.
   * Before one, both hold the same text.
   */
  lemma {:induction false} RunJoin(s: Scanner, base: Bytes, rest: Bytes, queue: seq<Bytes>, data: Bytes)
    ensures var x := Run(s, base, rest, queue, data);
            var y := Run(s, base + rest, [], queue, data);
            x.scanner == y.scanner && x.queue == y.queue && x.failed == y.failed
            && (x.queue == queue ==> x.base + x.rest == y.base + y.rest)
            && (x.queue != queue ==> x.base == y.base && x.rest == y.rest)
    decreases |data|
  {
    if data != [] {
      var t := Step(s, data[0]);
      if t.1 == ElementComplete {
        assert base + rest + [data[0]] == base + rest + [] + [data[0]];
      } else if t.1 != JsonError {
        var joined := base + rest + [data[0]];
        assert base + (rest + [data[0]]) == joined;
        assert (base + rest) + ([] + [data[0]]) == joined;
        RunJoin(t.0, base, rest + [data[0]], queue, data[1..]);
        RunJoin(t.0, base + rest, [] + [data[0]], queue, data[1..]);
      }
    } else {
      assert base + rest == base + rest + [];
    }
  }

  /**
   * The helper class: `appendData` scans the chunk in place, cutting
   * elements off as they complete.
   */
  class StreamingJsonHelper {
    var buffer: Bytes
    var elements: seq<Bytes>
    var depthStack: seq<byte>
    var inString: bool
    var skipFirst: bool

    /** The helper's fields as one value. */
    function State(): Helper
      reads this
    {
      Helper(buffer, elements, depthStack, inString, skipFirst)
    }

    constructor ()
      ensures State() == Fresh
    {
      buffer := [];
      elements := [];
      depthStack := [];
      inString := false;
      skipFirst := false;
    }

    /** `pushStack`. */
    method PushStack(c: byte)
      modifies this
      ensures State() == old(State()).(depthStack := old(depthStack) + [c])
    {
      depthStack := depthStack + [c];
    }

    /** `popStack`. */
    method PopStack(c: byte) returns (status: Status)
      modifies this
      ensures (depthStack, status) == Pop(old(depthStack), c)
      ensures State() == old(State()).(depthStack := depthStack)
    {
      if depthStack == [] {
        return JsonError;
      }
      var expected := if c == CLOSE_ARRAY then OPEN_ARRAY else OPEN_OBJECT;
      var last := depthStack[|depthStack| - 1];
      depthStack := depthStack[..|depthStack| - 1];
      if last != expected {
        return JsonError;
      }
      status := if depthStack == [] then ElementComplete else Premature;
    }

    /** `appendElement`: the buffer and `left` form the next element; the buffer is emptied. */
    method AppendElement(left: Bytes)
      modifies this
      ensures State() == old(State()).(elements := old(elements) + [old(buffer) + left], buffer := [])
    {
      elements := elements + [buffer + left];
      buffer := [];
    }

    /** `hasWaitingElement`. */
    function HasWaitingElement(): (r: bool)
      reads this
      ensures r <==> |elements| > 0
    {
      elements != []
    }

    /** `nextWaitingElement`: the queue is first in, first out. */
    method NextWaitingElement() returns (e: Bytes)
      requires elements != []
      modifies this
      ensures [e] + elements == old(elements)
      ensures State() == old(State()).(elements := elements)
    {
      e := elements[0];
      elements := elements[1..];
    }

    /**
     * `appendData`: the scan of the chunk, then the end of it. Bytes left
     * since the last cut are kept in the buffer. When no bracket or string
     * is open they are also queued as a root value.
     */
    method AppendData(data: Bytes) returns (status: Status)
      modifies this
      ensures (State(), status) == Feed(old(State()), data)
    {
      var i := if skipFirst then 1 else 0;
      skipFirst := false;
      var failed, start := ScanChunk(data, i);
      if failed {
        return JsonError;
      }
      var left := data[start..];
      assert buffer + [] == buffer;
      if |left| > 0 {
        if depthStack == [] && !inString {
          AppendElement(left);
        }
        buffer := buffer + left;
      }
      status := if elements == [] then Premature else ElementComplete;
    }

    /**
     * The loop of `appendData`, from byte `from` on. `start` is where the
     * chunk's unconsumed part begins; `StreamingJsonHelper` advances its `raw` cursor
     * there. An escaping backslash skips the next byte. When it is the last
     * byte, the skip carries over to the next chunk. On an error the scan
     * stops at once.
     */
    method ScanChunk(data: Bytes, from: nat) returns (failed: bool, start: nat)
      requires from <= 1 && !skipFirst
      modifies this
      ensures var o := Run(Scanner(old(depthStack), old(inString), from == 1), old(buffer), [], old(elements), data);
              failed == o.failed && depthStack == o.scanner.stack && inString == o.scanner.inString
              && buffer == o.base && elements == o.queue && skipFirst == (!failed && data != [] && o.scanner.skip)
              && start <= |data| && (!failed ==> o.rest == data[start..])
    {
      ghost var target := Run(Scanner(depthStack, inString, from == 1), buffer, [], elements, data);
      var i := from;
      start := 0;
      if i == 1 && data != [] {
        RunAt(Scanner(depthStack, inString, true), buffer, [], elements, data, 0);
        assert [] + [data[0]] == data[0..1] && data[0..] == data;
      }
      while i < |data|
        invariant start <= i <= |data| + 1 && start <= |data|
        invariant i <= |data| ==> !skipFirst && Run(Scanner(depthStack, inString, false), buffer, data[start..i], elements, data[i..]) == target
        invariant i > |data| ==> (skipFirst <==> data != []) && Run(Scanner(depthStack, inString, true), buffer, data[start..], elements, []) == target
        decreases |data| + 1 - i
      {
        var stop;
        stop, start, i := ScanByte(data, start, i, target);
        if stop {
          return true, start;
        }
      }
      if i <= |data| {
        assert data[start..i] == data[start..] && data[i..] == [];
      }
      failed := false;
    }

    /**
     * One pass of the loop of `appendData`, at byte `i`. It returns whether
     * the scan stopped on an error, where the unconsumed part now begins,
     * and the next byte to look at.
     */
    method ScanByte(data: Bytes, start: nat, i: nat, ghost target: Outcome) returns (failed: bool, newStart: nat, next: nat)
      requires start <= i < |data| && !skipFirst
      requires Run(Scanner(depthStack, inString, false), buffer, data[start..i], elements, data[i..]) == target
      modifies this
      ensures newStart <= next <= |data| + 1 && newStart <= |data| && next > i
      ensures failed ==> target == Outcome(Scanner(depthStack, inString, false), buffer, target.rest, elements, true) && !skipFirst
      ensures !failed && next <= |data| ==> !skipFirst && Run(Scanner(depthStack, inString, false), buffer, data[newStart..next], elements, data[next..]) == target
      ensures !failed && next > |data| ==> skipFirst && Run(Scanner(depthStack, inString, true), buffer, data[newStart..], elements, []) == target
    {
      var c := data[i];
      RunAt(Scanner(depthStack, inString, false), buffer, data[start..i], elements, data, i);
      failed, newStart := false, start;
      if c == BACKSLASH {
        if i + 1 >= |data| {
          skipFirst := true;
          assert data[start..i] + [c] == data[start..] && data[i + 1..] == [];
        } else {
          assert data[start..i] + [c] + [data[i + 1]] == data[start..i + 2];
          RunAt(Scanner(depthStack, inString, true), buffer, data[start..i] + [c], elements, data, i + 1);
          next := i + 2;
          assert Run(Scanner(depthStack, inString, false), buffer, data[newStart..next], elements, data[next..]) == target;
        }
        next := i + 2;
      } else if c == QUOTE {
        inString := !inString;
        assert data[start..i] + [c] == data[start..i + 1];
        next := i + 1;
        assert Run(Scanner(depthStack, inString, false), buffer, data[newStart..next], elements, data[next..]) == target;
      } else if !inString {
        var s;
        assert data[start..i] + [c] == data[start..i + 1];
        s, newStart := ScanStructural(data, start, i);
        failed := s == JsonError;
        next := i + 1;
        if s == ElementComplete {
          assert data[newStart..next] == [];
        }
        if !failed {
          assert Run(Scanner(depthStack, inString, false), buffer, data[newStart..next], elements, data[next..]) == target;
        }
      } else {
        assert data[start..i] + [c] == data[start..i + 1];
        next := i + 1;
        assert Run(Scanner(depthStack, inString, false), buffer, data[newStart..next], elements, data[next..]) == target;
      }
    }

    /**
     * A byte outside strings that is not a backslash: brackets open and
     * close. When the outermost one closes, the element is cut off at it.
     */
    method ScanStructural(data: Bytes, start: nat, i: nat) returns (s: Status, next: nat)
      requires start <= i < |data| && !inString && data[i] != BACKSLASH && data[i] != QUOTE
      modifies this
      ensures var t := Step(Scanner(old(depthStack), false, false), data[i]);
              s == t.1 && depthStack == t.0.stack && !inString && skipFirst == old(skipFirst)
              && (s == ElementComplete ==> elements == old(elements) + [old(buffer) + data[start..i] + [data[i]]] && buffer == [] && next == i + 1)
              && (s != ElementComplete ==> elements == old(elements) && buffer == old(buffer) && next == start)
    {
      var c := data[i];
      s := Premature;
      next := start;
      if c == OPEN_OBJECT || c == OPEN_ARRAY {
        PushStack(c);
      } else if c == CLOSE_OBJECT || c == CLOSE_ARRAY {
        s := PopStack(c);
      }
      if s == ElementComplete {
        assert buffer + data[start..i] + [c] == buffer + data[start..i + 1];
        AppendElement(data[start..i + 1]);
        next := i + 1;
      }
    }
  }

  /** One step of a scan, at byte `i` of `data`. */
  lemma RunAt(s: Scanner, base: Bytes, rest: Bytes, queue: seq<Bytes>, data: Bytes, i: nat)
    requires i < |data|
    ensures Run(s, base, rest, queue, data[i..])
         == var t := Step(s, data[i]);
            if t.1 == JsonError then Outcome(t.0, base, rest, queue, true)
            else if t.1 == ElementComplete then Run(t.0, [], [], queue + [base + rest + [data[i]]], data[i + 1..])
            else Run(t.0, base, rest + [data[i]], queue, data[i + 1..])
  {
    assert data[i..][0] == data[i] && data[i..][1..] == data[i + 1..];
  }

  /** The scanner between elements: no bracket or string open, no escape pending. */
  const Root := Scanner([], false, false)

  /** `x` scanned from the root is exactly one element, ending at its last byte. */
  predicate IsElement(x: Bytes)
  {
    Run(Root, [], [], [], x) == Outcome(Root, [], [], [x], false)
  }

  /** The queue a scan starts with is carried along unchanged in front. */
  lemma {:induction false} RunQueue(s: Scanner, base: Bytes, rest: Bytes, queue: seq<Bytes>, data: Bytes)
    ensures var r := Run(s, base, rest, [], data);
            Run(s, base, rest, queue, data) == r.(queue := queue + r.queue)
    decreases |data|
  {
    if data != [] {
      var t := Step(s, data[0]);
      if t.1 == ElementComplete {
        var e := base + rest + [data[0]];
        RunQueue(t.0, [], [], queue + [e], data[1..]);
        RunQueue(t.0, [], [], [] + [e], data[1..]);
        assert [] + [e] == [e];
        assert queue + [e] + Run(t.0, [], [], [], data[1..]).queue == queue + ([e] + Run(t.0, [], [], [], data[1..]).queue);
      } else if t.1 != JsonError {
        RunQueue(t.0, base, rest + [data[0]], queue, data[1..]);
      }
    } else {
      assert queue + [] == queue;
    }
  }

  /**
   * Two elements delivered back to back, from a helper between elements,
   * are queued in order and leave nothing buffered.
   */
  lemma ElementsInOrder(h: Helper, x: Bytes, y: Bytes)
    requires h.depthStack == [] && !h.inString && !h.skipFirst && h.buffer == []
    requires IsElement(x) && IsElement(y)
    ensures Feed(h, x + y) == (h.(elements := h.elements + [x, y]), ElementComplete)
  {
    RunAppend(Root, [], [], h.elements, x, y);
    RunQueue(Root, [], [], h.elements, x);
    RunQueue(Root, [], [], h.elements + [x], y);
    assert h.elements + [x] + [y] == h.elements + [x, y];
    var o := Scan(h, x + y);
    assert o == Outcome(Root, [], [], h.elements + [x, y], false);
    assert !RootValueLeft(o) && o.base + o.rest == [];
    assert Feed(h, x + y).0 == Helper([], o.queue, [], false, false);
  }

  /** Inside a string, bytes other than a quote or a backslash change nothing. */
  lemma StringHidesBrackets(s: Scanner, c: byte)
    requires s.inString && !s.skip && c != QUOTE && c != BACKSLASH
    ensures Step(s, c) == (s, Premature)
  {
  }

  /**
   * A closing bracket between elements is an error at once; the queue and
   * the buffer are as they were.
   */
  lemma UnopenedCloseIsError(h: Helper, data: Bytes)
    requires h.depthStack == [] && !h.inString && !h.skipFirst
    requires data != [] && (data[0] == CLOSE_OBJECT || data[0] == CLOSE_ARRAY)
    ensures Feed(h, data) == (h, JsonError)
  {
    RunAt(Root, h.buffer, [], h.elements, data, 0);
    assert data[0..] == data;
  }

  /** `{}` is an element. */
  lemma EmptyObjectIsElement()
    ensures IsElement([OPEN_OBJECT, CLOSE_OBJECT])
  {
    var d: Bytes := [OPEN_OBJECT, CLOSE_OBJECT];
    assert [] + [d[0]] == [OPEN_OBJECT] && d[1..] == [CLOSE_OBJECT] && [CLOSE_OBJECT][1..] == [];
    assert Run(Root, [], [], [], d) == Run(Scanner([OPEN_OBJECT], false, false), [], [OPEN_OBJECT], [], [CLOSE_OBJECT]);
    assert [] + [OPEN_OBJECT] + [CLOSE_OBJECT] == d && [] + [d] == [d];
    assert Run(Scanner([OPEN_OBJECT], false, false), [], [OPEN_OBJECT], [], [CLOSE_OBJECT]) == Outcome(Root, [], [], [d], false);
  }

  /**
   * Brackets inside a string do not count: bytes other than quotes and
   * backslashes pass through a string without changing the scanner.
   */
  lemma {:induction false} StringBytesPass(s: Scanner, base: Bytes, rest: Bytes, queue: seq<Bytes>, data: Bytes)
    requires s.inString && !s.skip
    requires forall i | 0 <= i < |data| :: data[i] != QUOTE && data[i] != BACKSLASH
    ensures Run(s, base, rest, queue, data) == Outcome(s, base, rest + data, queue, false)
    decreases |data|
  {
    if data == [] {
      assert rest + data == rest;
    } else {
      StringHidesBrackets(s, data[0]);
      StringBytesPass(s, base, rest + [data[0]], queue, data[1..]);
      assert rest + [data[0]] + data[1..] == rest + data;
    }
  }

  /** An unfinished object is premature and nothing is queued; its bytes stay buffered. */
  lemma UnfinishedIsPremature()
    ensures Feed(Fresh, [OPEN_OBJECT, QUOTE]) == (Helper([OPEN_OBJECT, QUOTE], [], [OPEN_OBJECT], true, false), Premature)
  {
    var d: Bytes := [OPEN_OBJECT, QUOTE];
    assert [] + [d[0]] == [OPEN_OBJECT] && d[1..] == [QUOTE] && [QUOTE][1..] == [];
    assert [OPEN_OBJECT] + [QUOTE] == d && [] + d == d;
    assert Run(Root, [], [], [], d) == Run(Scanner([OPEN_OBJECT], false, false), [], [OPEN_OBJECT], [], [QUOTE]);
    assert Run(Scanner([OPEN_OBJECT], false, false), [], [OPEN_OBJECT], [], [QUOTE]) == Outcome(Scanner([OPEN_OBJECT], true, false), [], d, [], false);
  }

  /**
   * A root value other than an object or array is queued at the end of the
   * chunk. Its bytes also stay in the buffer, so they come again in front of
   * the next element.
   */
  lemma RootValueAlsoBuffered()
    ensures var h := Feed(Fresh, [49]).0;
            h == Helper([49], [[49]], [], false, false)
            && Feed(h, [OPEN_ARRAY, CLOSE_ARRAY]).0.elements == [[49], [49, OPEN_ARRAY, CLOSE_ARRAY]]
  {
    var one: Bytes := [49];
    assert [] + [one[0]] == one && one[1..] == [];
    assert Run(Root, [], [], [], one) == Outcome(Root, [], one, [], false);
    assert [] + one == one && [] + [one] == [one];
    var d: Bytes := [OPEN_ARRAY, CLOSE_ARRAY];
    var e: Bytes := [49, OPEN_ARRAY, CLOSE_ARRAY];
    assert [] + [d[0]] == [OPEN_ARRAY] && d[1..] == [CLOSE_ARRAY] && [CLOSE_ARRAY][1..] == [];
    assert Run(Root, one, [], [one], d) == Run(Scanner([OPEN_ARRAY], false, false), one, [OPEN_ARRAY], [one], [CLOSE_ARRAY]);
    assert one + [OPEN_ARRAY] + [CLOSE_ARRAY] == e && [one] + [e] == [one, e];
    assert Run(Scanner([OPEN_ARRAY], false, false), one, [OPEN_ARRAY], [one], [CLOSE_ARRAY]) == Outcome(Root, [], [], [one, e], false);
  }

  /**
   * A backslash that ends a chunk escapes the first byte of the next one:
   * the root string `"\""` is complete only at the second quote.
   */
  lemma EscapeAcrossChunks()
    ensures var h := Feed(Fresh, [QUOTE, BACKSLASH]).0;
            h == Helper([QUOTE, BACKSLASH], [], [], true, true)
            && Feed(h, [QUOTE, QUOTE]).0 == Helper([QUOTE, QUOTE], [[QUOTE, BACKSLASH, QUOTE, QUOTE]], [], false, false)
  {
    var d: Bytes := [QUOTE, BACKSLASH];
    assert [] + [d[0]] == [QUOTE] && d[1..] == [BACKSLASH] && [BACKSLASH][1..] == [];
    assert [QUOTE] + [BACKSLASH] == d && [] + d == d;
    assert Run(Root, [], [], [], d) == Run(Scanner([], true, false), [], [QUOTE], [], [BACKSLASH]);
    assert Run(Scanner([], true, false), [], [QUOTE], [], [BACKSLASH]) == Outcome(Scanner([], true, true), [], d, [], false);
    var q: Bytes := [QUOTE, QUOTE];
    var e: Bytes := [QUOTE, BACKSLASH, QUOTE, QUOTE];
    assert [] + [q[0]] == [QUOTE] && q[1..] == [QUOTE] && [QUOTE][1..] == [];
    assert Run(Scanner([], true, true), d, [], [], q) == Run(Scanner([], true, false), d, [QUOTE], [], [QUOTE]);
    assert d + [QUOTE] + [QUOTE] == e && [] + [e] == [e];
    assert Run(Scanner([], true, false), d, [QUOTE], [], [QUOTE]) == Outcome(Root, d, q, [], false);
    assert d + q == e;
  }
}
