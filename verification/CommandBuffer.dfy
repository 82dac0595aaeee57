/** The command buffer: text is cut into lines, and a line that is executed may put more
    text in front of what is left. */
module CommandBuffer {
  import opened Options
  import opened Names

  const MAX_CMD_LINE := 1024

  // ----- lines of text

  predicate Commented(text: string) {
    |text| > 1 && text[0] == '/' && text[1] == '/'
  }

  /** The first line break at or after i: a newline, or a semicolon outside quotes and comments. */
  function BreakFrom(text: string, i: nat, quoted: bool, commented: bool): (b: nat)
    requires i <= |text|
    ensures i <= b <= |text|
    ensures b < |text| ==> text[b] == '\n' || text[b] == ';'
    decreases |text| - i
  {
    if i == |text| then i
    else
      var quoted' := quoted != (text[i] == '"');
      if !quoted' && !commented && text[i] == ';' then i
      else if text[i] == '\n' then i
      else BreakFrom(text, i + 1, quoted', commented)
  }

  function Break(text: string): (b: nat)
    ensures b <= |text|
  {
    BreakFrom(text, 0, false, Commented(text))
  }

  /** A line ends at a newline, and at a semicolon with an even number of quotes before it, unless
      the text begins with two slashes. */
  ghost predicate Stops(text: string, i: nat)
    requires i < |text|
  {
    || text[i] == '\n'
    || (text[i] == ';' && multiset(text[..i])['"'] % 2 == 0 && !(|text| > 1 && text[0] == '/' && text[1] == '/'))
  }

  /** The break is the first place where a line ends. */
  lemma BreakStops(text: string)
    ensures forall k :: 0 <= k < Break(text) ==> !Stops(text, k)
    ensures Break(text) < |text| ==> Stops(text, Break(text))
  {
    assert text[..0] == "";
    BreakFromStops(text, 0, false);
  }

  lemma {:induction false} BreakFromStops(text: string, i: nat, quoted: bool)
    requires i <= |text| && (quoted <==> multiset(text[..i])['"'] % 2 == 1)
    ensures var b := BreakFrom(text, i, quoted, Commented(text));
            (forall k :: i <= k < b ==> !Stops(text, k)) && (b < |text| ==> Stops(text, b))
    decreases |text| - i
  {
    if i < |text| {
      OneMoreQuote(text, i);
      StopsIs(text, i, quoted);
      hide Stops;
      var quoted' := quoted != (text[i] == '"');
      if !(!quoted' && !Commented(text) && text[i] == ';') && text[i] != '\n' {
        BreakFromStops(text, i + 1, quoted');
      }
    }
  }

  lemma OneMoreQuote(text: string, i: nat)
    requires i < |text|
    ensures multiset(text[..i + 1])['"'] == multiset(text[..i])['"'] + if text[i] == '"' then 1 else 0
  {
    assert text[..i + 1] == text[..i] + [text[i]];
  }

  lemma StopsIs(text: string, i: nat, quoted: bool)
    requires i < |text| && (quoted <==> multiset(text[..i])['"'] % 2 == 1)
    ensures Stops(text, i) <==> text[i] == '\n' || (text[i] == ';' && !quoted && !Commented(text))
  {
  }

  lemma SemicolonBreaks()
    ensures Lines("a;b\n") == ["a", "b"]
  {
    assert Break("a;b\n") == 1 && Break("b\n") == 1;
    hide Break;
    assert Line("a;b\n") == "a" && Rest("a;b\n") == "b\n";
    assert Line("b\n") == "b" && Rest("b\n") == "";
    NoLines();
  }

  /** The first line, cut off at the length of the line buffer. */
  function Line(text: string): (line: string)
    ensures |line| < MAX_CMD_LINE
  {
    if Break(text) > MAX_CMD_LINE - 1 then text[..MAX_CMD_LINE - 1] else text[..Break(text)]
  }

  /** What is left once the first line and its break are taken off. */
  function Rest(text: string): (rest: string)
    ensures text != "" ==> |rest| < |text|
  {
    if Break(text) == |text| then "" else text[Break(text) + 1..]
  }

  function Lines(text: string): seq<string>
    decreases |text|
  {
    if text == "" then [] else [Line(text)] + Lines(Rest(text))
  }

  predicate Terminated(text: string) {
    text == "" || text[|text| - 1] == '\n'
  }

  lemma {:induction false} BreakInPrefix(a: string, b: string, i: nat, quoted: bool, commented: bool)
    requires i < |a| && a[|a| - 1] == '\n'
    ensures BreakFrom(a + b, i, quoted, commented) == BreakFrom(a, i, quoted, commented) < |a|
    decreases |a| - i
  {
    var quoted' := quoted != (a[i] == '"');
    if !(!quoted' && !commented && a[i] == ';') && a[i] != '\n' {
      BreakInPrefix(a, b, i + 1, quoted', commented);
    }
  }

  /** The first line of terminated text does not depend on what follows. */
  lemma FirstLine(a: string, b: string)
    requires a != "" && Terminated(a)
    ensures Line(a + b) == Line(a) && Rest(a + b) == Rest(a) + b && Terminated(Rest(a))
  {
    SameBreak(a, b);
    hide Break;
    SlicesOfFirst(a, b, Break(a));
    SlicesOfFirst(a, b, MAX_CMD_LINE - 1);
  }

  lemma SameBreak(a: string, b: string)
    requires a != "" && Terminated(a)
    ensures Break(a + b) == Break(a) < |a|
  {
    BreakInPrefix(a, b, 0, false, Commented(a));
    assert Commented(a + b) == Commented(a);
  }

  lemma SlicesOfFirst(a: string, b: string, k: nat)
    ensures k <= |a| ==> (a + b)[..k] == a[..k]
    ensures k < |a| ==> (a + b)[k + 1..] == a[k + 1..] + b
  {
  }

  /** Quotes, semicolons and comments do not reach over the end of terminated text. */
  lemma {:induction false} LinesConcat(a: string, b: string)
    requires Terminated(a)
    ensures Lines(a + b) == Lines(a) + Lines(b)
    decreases |a|
  {
    hide Line, Rest;
    if a == "" {
      assert a + b == b;
    } else {
      FirstLine(a, b);
      LinesConcat(Rest(a), b);
    }
  }

  /** So a newline parts what stands before it from what stands behind. */
  lemma NewlineParts(a: string, b: string)
    ensures Lines(a + "\n" + b) == Lines(a + "\n") + Lines(b)
  {
    LinesConcat(a + "\n", b);
  }

  /** Text without a line break runs on into whatever stands behind it. */
  lemma RunsOn(a: string, b: string)
    requires a != "" && Break(a) == |a| < MAX_CMD_LINE
    ensures a <= Line(a + b)
  {
    NoBreakInPrefix(a, b, 0, false, Commented(a), Commented(a + b));
  }

  lemma {:induction false} NoBreakInPrefix(a: string, b: string, i: nat, quoted: bool, commented: bool, more: bool)
    requires i <= |a| && BreakFrom(a, i, quoted, commented) == |a| && (commented ==> more)
    ensures BreakFrom(a + b, i, quoted, more) >= |a|
    decreases |a| - i
  {
    if i < |a| {
      NoBreakInPrefix(a, b, i + 1, quoted != (a[i] == '"'), commented, more);
    }
  }

  // ----- what executing a line does to the buffer

  datatype Effect = Plain | Wait | Insert(text: string) | InsertLines(text: string)

  /** Something that is looked up by its name. */
  datatype Named<T> = Named(name: string, value: T)

  /** The registered commands and aliases, and how a line's first token is found. */
  datatype Env = Env(commands: seq<Named<string -> Effect>>, aliases: seq<Named<string>>, token: string -> Option<string>)

  /** Where a name is first found, or the end. */
  function FirstNamed<T>(items: seq<Named<T>>, name: string): (i: nat)
    ensures i <= |items|
    ensures i < |items| ==> Stricmp(name, items[i].name) == 0
    ensures forall k :: 0 <= k < i ==> Stricmp(name, items[k].name) != 0
  {
    if items == [] || Stricmp(name, items[0].name) == 0 then 0 else 1 + FirstNamed(items[1..], name)
  }

  /** A command shadows an alias of the same name. */
  function EffectOf(env: Env, line: string): Effect {
    match env.token(line)
    case None => Plain
    case Some(name) =>
      var c, a := FirstNamed(env.commands, name), FirstNamed(env.aliases, name);
      if c < |env.commands| then env.commands[c].value(line)
      else if a < |env.aliases| then Insert(env.aliases[a].value)
      else Plain
  }

  /** The line's first token picks the first command that it names in any spelling, else the first
      such alias, else nothing. */
  lemma LookupOrder(env: Env, line: string, i: nat)
    ensures env.token(line) == None ==> EffectOf(env, line) == Plain
    ensures env.token(line).Some? && i < |env.commands|
            && SameName(env.token(line).value, env.commands[i].name)
            && (forall k :: 0 <= k < i ==> !SameName(env.token(line).value, env.commands[k].name)) ==>
              EffectOf(env, line) == env.commands[i].value(line)
    ensures env.token(line).Some? && i < |env.aliases|
            && (forall k :: 0 <= k < |env.commands| ==> !SameName(env.token(line).value, env.commands[k].name))
            && SameName(env.token(line).value, env.aliases[i].name)
            && (forall k :: 0 <= k < i ==> !SameName(env.token(line).value, env.aliases[k].name)) ==>
              EffectOf(env, line) == Insert(env.aliases[i].value)
    ensures env.token(line).Some?
            && (forall k :: 0 <= k < |env.commands| ==> !SameName(env.token(line).value, env.commands[k].name))
            && (forall k :: 0 <= k < |env.aliases| ==> !SameName(env.token(line).value, env.aliases[k].name)) ==>
              EffectOf(env, line) == Plain
  {
    if env.token(line).Some? {
      var name := env.token(line).value;
      FirstSpelling(env.commands, name, i);
      FirstSpelling(env.aliases, name, i);
      hide SameName, Stricmp;
      var c, a := FirstNamed(env.commands, name), FirstNamed(env.aliases, name);
      assert c < |env.commands| ==> SameName(name, env.commands[c].name);
      assert a < |env.aliases| ==> SameName(name, env.aliases[a].name);
    }
  }

  lemma FirstSpelling<T>(items: seq<Named<T>>, name: string, i: nat)
    ensures var f := FirstNamed(items, name); f < |items| ==> SameName(name, items[f].name)
    ensures i < |items| && SameName(name, items[i].name) && (forall k :: 0 <= k < i ==> !SameName(name, items[k].name)) ==>
              FirstNamed(items, name) == i
  {
    hide SameName, Stricmp;
    var f := FirstNamed(items, name);
    if f < |items| {
      StricmpSame(name, items[f].name);
    }
    if i < |items| {
      StricmpSame(name, items[i].name);
    }
  }

  /** The text that executing a line puts in front of the buffer. */
  function Inserted(env: Env, line: string): string {
    if line == "" then ""
    else
      match EffectOf(env, line)
      case Insert(text) => text
      case InsertLines(text) => "\n" + text + "\n"
      case _ => ""
  }

  lemma InsertedIs(env: Env, line: string)
    requires line != ""
    ensures match EffectOf(env, line) {
              case Insert(text) => Inserted(env, line) == text
              case InsertLines(text) => Inserted(env, line) == "\n" + text + "\n"
              case _ => Inserted(env, line) == ""
            }
  {
  }

  // ----- one turn after another

  predicate Waits(env: Env, line: string) {
    line != "" && EffectOf(env, line) == Wait
  }

  /** The text after a turn in a buffer of a given size: an insertion that does not fit is dropped. */
  function Next(env: Env, room: nat, text: string): (next: string)
    requires text != ""
  {
    var ins, rest := Inserted(env, Line(text)), Rest(text);
    (if |rest| + |ins| < room then ins else "") + rest
  }

  /** The text runs for exactly n turns: it is then used up, or the last turn had a wait behind it. */
  predicate Runs(env: Env, room: nat, waiting: bool, text: string, n: nat)
    decreases n
  {
    if text == "" then n == 0
    else n > 0 && if waiting || Waits(env, Line(text)) then n == 1 else Runs(env, room, waiting, Next(env, room, text), n - 1)
  }

  /** The lines that get the first n turns. */
  function Ran(env: Env, room: nat, text: string, n: nat): seq<string>
    decreases n
  {
    if n == 0 || text == "" then [] else [Line(text)] + Ran(env, room, Next(env, room, text), n - 1)
  }

  /** The text after n turns. */
  function After(env: Env, room: nat, text: string, n: nat): string
    decreases n
  {
    if n == 0 || text == "" then text else After(env, room, Next(env, room, text), n - 1)
  }

  /** A run has one length. */
  lemma {:induction false} RunsOnce(env: Env, room: nat, waiting: bool, text: string, m: nat, n: nat)
    requires Runs(env, room, waiting, text, m) && Runs(env, room, waiting, text, n)
    ensures m == n
    decreases n
  {
    hide Waits, Line, Next;
    if text != "" && !waiting && !Waits(env, Line(text)) {
      RunsOnce(env, room, waiting, Next(env, room, text), m - 1, n - 1);
    }
  }

  /** A run stops with text left only behind a wait. */
  lemma {:induction false} StopsAtWait(env: Env, room: nat, waiting: bool, text: string, n: nat)
    requires Runs(env, room, waiting, text, n)
    ensures After(env, room, text, n) == "" || waiting
            || (Ran(env, room, text, n) != [] && Waits(env, Ran(env, room, text, n)[|Ran(env, room, text, n)| - 1]))
    decreases n
  {
    hide Waits, Line, Next;
    if text != "" && !waiting && !Waits(env, Line(text)) {
      StopsAtWait(env, room, waiting, Next(env, room, text), n - 1);
    }
  }

  // ----- the depth-first expansion

  /** The lines of the text insert, if anything, text whose insertions are nested less deep. */
  ghost predicate Nested(env: Env, text: string, depth: nat)
    decreases depth, 0
  {
    forall line :: line in Lines(text) ==> depth > 0 && NestsTo(env, line, depth - 1)
  }

  /** What the line inserts is terminated and nested to that depth. */
  ghost predicate NestsTo(env: Env, line: string, depth: nat)
    decreases depth, 1
  {
    Terminated(Inserted(env, line)) && Nested(env, Inserted(env, line), depth)
  }

  lemma NestedParts(env: Env, text: string, depth: nat)
    requires text != "" && Nested(env, text, depth)
    ensures depth > 0 && Terminated(Inserted(env, Line(text))) && Nested(env, Inserted(env, Line(text)), depth - 1)
    ensures Nested(env, Rest(text), depth)
  {
    hide Line, Rest, Inserted, Terminated;
    assert Lines(text)[0] == Line(text) && Lines(text)[1..] == Lines(Rest(text));
    assert Line(text) in Lines(text) && forall line :: line in Lines(Rest(text)) ==> line in Lines(text);
    hide Lines;
    assert NestsTo(env, Line(text), depth - 1);
  }

  lemma {:induction false} NestedMore(env: Env, text: string, a: nat, b: nat)
    requires Nested(env, text, a) && a <= b
    ensures Nested(env, text, b)
    decreases a
  {
    hide Inserted, Lines, Terminated;
    forall line | line in Lines(text) ensures b > 0 && NestsTo(env, line, b - 1) {
      assert NestsTo(env, line, a - 1);
      NestedMore(env, Inserted(env, line), a - 1, b - 1);
    }
  }

  lemma NestedJoin(env: Env, a: string, b: string, depth: nat)
    requires Terminated(a) && Nested(env, a, depth) && Nested(env, b, depth)
    ensures Nested(env, a + b, depth)
  {
    hide Inserted, Lines, Terminated;
    LinesConcat(a, b);
  }

  /** Every line that gets its turn, in order: a line is followed by all that it brings in. */
  ghost function Trace(env: Env, text: string, depth: nat): seq<string>
    requires Nested(env, text, depth)
    decreases depth, |text|
  {
    if text == "" then []
    else
      NestedParts(env, text, depth);
      [Line(text)] + Trace(env, Inserted(env, Line(text)), depth - 1) + Trace(env, Rest(text), depth)
  }

  lemma TraceUnfold(env: Env, text: string, depth: nat)
    requires Nested(env, text, depth) && text != ""
    ensures depth > 0 && Nested(env, Inserted(env, Line(text)), depth - 1) && Nested(env, Rest(text), depth)
    ensures Trace(env, text, depth)
            == [Line(text)] + Trace(env, Inserted(env, Line(text)), depth - 1) + Trace(env, Rest(text), depth)
  {
    hide Line, Rest, Nested, Inserted;
    NestedParts(env, text, depth);
  }

  /** The expansion does not depend on the depth allowed. */
  lemma {:induction false} TraceDepth(env: Env, text: string, a: nat, b: nat)
    requires Nested(env, text, a) && Nested(env, text, b)
    ensures Trace(env, text, a) == Trace(env, text, b)
    decreases a, |text|
  {
    hide Line, Rest, Nested, Inserted;
    if text != "" {
      NestedParts(env, text, a);
      NestedParts(env, text, b);
      TraceDepth(env, Inserted(env, Line(text)), a - 1, b - 1);
      TraceDepth(env, Rest(text), a, b);
    }
  }

  /** The expansion of terminated text comes before that of what follows it. */
  lemma {:induction false} TraceConcat(env: Env, a: string, b: string, depth: nat)
    requires Terminated(a) && Nested(env, a, depth) && Nested(env, b, depth)
    ensures Nested(env, a + b, depth)
    ensures Trace(env, a + b, depth) == Trace(env, a, depth) + Trace(env, b, depth)
    decreases |a|
  {
    hide Line, Rest, Nested, Inserted;
    NestedJoin(env, a, b, depth);
    if a == "" {
      assert a + b == b;
    } else {
      FirstLine(a, b);
      TraceUnfold(env, a, depth);
      TraceUnfold(env, a + b, depth);
      TraceConcat(env, Rest(a), b, depth);
      hide Trace;
      Associate([Line(a)], Trace(env, Inserted(env, Line(a)), depth - 1), Trace(env, Rest(a), depth), Trace(env, b, depth));
    }
  }

  lemma Associate(a: seq<string>, b: seq<string>, c: seq<string>, d: seq<string>)
    ensures a + b + (c + d) == (a + b + c) + d
  {
  }

  /** The lines that are executed: an empty line is passed over. */
  function NonEmpty(lines: seq<string>): seq<string> {
    if lines == [] then []
    else (if lines[0] == "" then [] else [lines[0]]) + NonEmpty(lines[1..])
  }

  /** The most text that the buffer holds while it is worked off. */
  ghost function Peak(env: Env, text: string, depth: nat): nat
    requires Nested(env, text, depth)
    decreases depth, |text|
  {
    if text == "" then 0
    else
      NestedParts(env, text, depth);
      Max(|text|, Max(Peak(env, Inserted(env, Line(text)), depth - 1) + |Rest(text)|, Peak(env, Rest(text), depth)))
  }

  function Max(a: nat, b: nat): nat {
    if a < b then b else a
  }

  lemma PeakUnfold(env: Env, text: string, depth: nat)
    requires Nested(env, text, depth) && text != ""
    ensures depth > 0 && Nested(env, Inserted(env, Line(text)), depth - 1) && Nested(env, Rest(text), depth)
    ensures Peak(env, text, depth)
            == Max(|text|, Max(Peak(env, Inserted(env, Line(text)), depth - 1) + |Rest(text)|, Peak(env, Rest(text), depth)))
  {
    hide Line, Rest, Nested, Inserted;
    NestedParts(env, text, depth);
  }

  lemma PeakHolds(env: Env, text: string, depth: nat)
    requires Nested(env, text, depth)
    ensures Peak(env, text, depth) >= |text|
  {
    hide Line, Rest, Nested, Inserted;
    if text != "" {
      PeakUnfold(env, text, depth);
    }
  }

  lemma {:induction false} PeakDepth(env: Env, text: string, a: nat, b: nat)
    requires Nested(env, text, a) && Nested(env, text, b)
    ensures Peak(env, text, a) == Peak(env, text, b)
    decreases a, |text|
  {
    hide Line, Rest, Nested, Inserted;
    if text != "" {
      NestedParts(env, text, a);
      NestedParts(env, text, b);
      PeakDepth(env, Inserted(env, Line(text)), a - 1, b - 1);
      PeakDepth(env, Rest(text), a, b);
    }
  }

  lemma {:induction false} PeakConcat(env: Env, a: string, b: string, depth: nat)
    requires Terminated(a) && Nested(env, a, depth) && Nested(env, b, depth)
    ensures Nested(env, a + b, depth)
    ensures Peak(env, a + b, depth) == Max(Peak(env, a, depth) + |b|, Peak(env, b, depth))
    decreases |a|
  {
    hide Line, Rest, Nested, Inserted;
    NestedJoin(env, a, b, depth);
    PeakHolds(env, b, depth);
    if a == "" {
      assert a + b == b;
    } else {
      FirstLine(a, b);
      PeakUnfold(env, a, depth);
      PeakUnfold(env, a + b, depth);
      PeakConcat(env, Rest(a), b, depth);
      hide Peak, Max;
      MaxShift(|a|, Peak(env, Inserted(env, Line(a)), depth - 1) + |Rest(a)|, Peak(env, Rest(a), depth),
               |b|, Peak(env, b, depth));
    }
  }

  lemma MaxShift(x: nat, y: nat, z: nat, k: nat, p: nat)
    ensures Max(x + k, Max(y + k, Max(z + k, p))) == Max(Max(x, Max(y, z)) + k, p)
  {
  }

  /** A bound a caller can check: when the lines that run insert at most n characters each, no
      run needs more room than the text and n for every level of nesting. */
  lemma {:induction false} PeakAtMost(env: Env, text: string, depth: nat, n: nat)
    requires Nested(env, text, depth)
    requires forall line :: line in Trace(env, text, depth) ==> |Inserted(env, line)| <= n
    ensures Peak(env, text, depth) <= |text| + depth * n
    decreases depth, |text|
  {
    hide Line, Rest, Nested, Inserted;
    if text == "" {
      assert 0 <= depth * n;
    } else {
      var line, ins, rest := Line(text), Inserted(env, Line(text)), Rest(text);
      TraceUnfold(env, text, depth);
      assert InsertAtMost(env, Trace(env, text, depth), n);
      PartsAtMost(env, [line], Trace(env, ins, depth - 1), Trace(env, rest, depth), n);
      FirstAtMost(env, line, n);
      PeakUnfold(env, text, depth);
      hide Trace, Peak, InsertAtMost;
      PeakAtMost(env, rest, depth, n);
      PeakAtMost(env, ins, depth - 1, n);
      OneLevel(depth, n);
    }
  }

  ghost predicate InsertAtMost(env: Env, lines: seq<string>, n: nat) {
    forall line :: line in lines ==> |Inserted(env, line)| <= n
  }

  lemma PartsAtMost(env: Env, a: seq<string>, b: seq<string>, c: seq<string>, n: nat)
    requires InsertAtMost(env, a + b + c, n)
    ensures InsertAtMost(env, a, n) && InsertAtMost(env, b, n) && InsertAtMost(env, c, n)
  {
    hide Inserted;
    assert forall x :: x in a || x in b || x in c ==> x in a + b + c;
  }

  lemma FirstAtMost(env: Env, line: string, n: nat)
    requires InsertAtMost(env, [line], n)
    ensures |Inserted(env, line)| <= n
  {
    hide Inserted;
    assert line in [line];
  }

  lemma OneLevel(depth: nat, n: nat)
    requires depth > 0
    ensures (depth - 1) * n + n == depth * n
  {
  }

  // ----- what runs is the expansion

  /** With room, one turn takes the next line of the expansion and leaves a text that expands
      to the others and needs no more room. */
  lemma TurnExpands(env: Env, room: nat, text: string, depth: nat)
    requires Nested(env, text, depth) && text != "" && Peak(env, text, depth) < room
    ensures Nested(env, Next(env, room, text), depth)
    ensures Trace(env, text, depth) == [Line(text)] + Trace(env, Next(env, room, text), depth)
    ensures Peak(env, Next(env, room, text), depth) < room
  {
    hide Line, Rest, Nested, Inserted, Peak, Trace;
    var line, ins, rest := Line(text), Inserted(env, Line(text)), Rest(text);
    TraceUnfold(env, text, depth);
    NestedParts(env, text, depth);
    NestedMore(env, ins, depth - 1, depth);
    TraceDepth(env, ins, depth - 1, depth);
    TraceConcat(env, ins, rest, depth);
    PeakDepth(env, ins, depth - 1, depth);
    PeakConcat(env, ins, rest, depth);
    PeakHolds(env, ins, depth);
    PeakUnfold(env, text, depth);
    assert Next(env, room, text) == ins + rest;
  }

  /** The scheduling law: with insertions nested to a finite depth and room for them, a run
      ends, and the lines it ran followed by the expansion of what it left are the depth-first
      expansion of the text. */
  lemma {:induction false} RunExpands(env: Env, room: nat, waiting: bool, text: string, depth: nat) returns (n: nat)
    requires Nested(env, text, depth) && Peak(env, text, depth) < room
    ensures Runs(env, room, waiting, text, n)
    ensures Nested(env, After(env, room, text, n), depth)
    ensures Ran(env, room, text, n) + Trace(env, After(env, room, text, n), depth) == Trace(env, text, depth)
    decreases |Trace(env, text, depth)|
  {
    hide Line, Rest, Nested, Inserted, Peak, Next, Waits, Trace;
    n := 0;
    if text != "" {
      TurnExpands(env, room, text, depth);
      var next := Next(env, room, text);
      if waiting || Waits(env, Line(text)) {
        n := 1;
        assert After(env, room, text, 1) == After(env, room, next, 0) == next;
        assert Ran(env, room, text, 1) == [Line(text)] + Ran(env, room, next, 0);
      } else {
        var m := RunExpands(env, room, waiting, next, depth);
        n := m + 1;
      }
    }
  }

  lemma LineDone(line: string, lines: seq<string>)
    ensures NonEmpty([line] + lines) == (if line == "" then [] else [line]) + NonEmpty(lines)
  {
    assert ([line] + lines)[1..] == lines;
  }

  /** Nothing hinders the first n turns: insertions are terminated and fit. */
  ghost predicate Unhindered(env: Env, room: nat, text: string, n: nat)
    decreases n
  {
    n > 0 && text != "" ==>
      && Terminated(Inserted(env, Line(text))) && |Rest(text)| + |Inserted(env, Line(text))| < room
      && Unhindered(env, room, Next(env, room, text), n - 1)
  }

  /** Finite nesting is needed: text that is used up, unhindered, is nested to a finite depth. */
  lemma {:induction false} UsedUpIsNested(env: Env, room: nat, text: string, n: nat)
    requires Unhindered(env, room, text, n) && After(env, room, text, n) == ""
    ensures Nested(env, text, n)
    decreases n
  {
    hide Line, Rest, Inserted, Terminated;
    if text == "" {
      NoLines();
    } else {
      var ins, rest := Inserted(env, Line(text)), Rest(text);
      UsedUpIsNested(env, room, Next(env, room, text), n - 1);
      NestedSplit(env, ins, rest, n - 1);
      NestedMore(env, rest, n - 1, n);
      assert Lines(text) == [Line(text)] + Lines(rest);
      hide Lines;
      forall line | line in Lines(text) ensures NestsTo(env, line, n - 1) {
        assert line == Line(text) || line in Lines(rest);
      }
    }
  }

  lemma NestedSplit(env: Env, a: string, b: string, depth: nat)
    requires Terminated(a) && Nested(env, a + b, depth)
    ensures Nested(env, a, depth) && Nested(env, b, depth)
  {
    hide Lines, Terminated, Inserted;
    LinesConcat(a, b);
    assert forall line :: line in Lines(a) || line in Lines(b) ==> line in Lines(a + b);
  }

  /** An alias that waits and then names itself: its text is nested to no depth, and yet a run
      of it ends after two turns and leaves the alias for the next. */
  lemma WaitingLoop(env: Env, room: nat, depth: nat)
    requires room > 10 && EffectOf(env, "loop") == Insert("wait\nloop\n") && EffectOf(env, "wait") == Wait
    ensures !Nested(env, "loop\n", depth)
    ensures Runs(env, room, false, "loop\n", 2) && After(env, room, "loop\n", 2) == "loop\n"
  {
    hide EffectOf;
    assert Inserted(env, "wait") == "" && Inserted(env, "loop") == "wait\nloop\n";
    LoopLines();
    LoopNext(env, room);
    TwoTurns(env, room, "loop\n", "wait\nloop\n");
    LoopNotNested(env, depth);
  }

  lemma LoopNext(env: Env, room: nat)
    requires room > 10 && Inserted(env, "wait") == "" && Inserted(env, "loop") == "wait\nloop\n"
    ensures Next(env, room, "loop\n") == "wait\nloop\n" && Next(env, room, "wait\nloop\n") == "loop\n"
  {
    hide Line, Rest, Inserted, Lines;
    LoopLines();
  }

  lemma TwoTurns(env: Env, room: nat, a: string, b: string)
    requires a != "" && b != "" && Next(env, room, a) == b && Next(env, room, b) == a
    requires !Waits(env, Line(a)) && Waits(env, Line(b))
    ensures Runs(env, room, false, a, 2) && After(env, room, a, 2) == a
  {
    hide Next, Waits, Line;
    assert Runs(env, room, false, b, 1) && After(env, room, b, 1) == After(env, room, a, 0) == a;
  }

  lemma LoopLines()
    ensures Line("loop\n") == "loop" && Rest("loop\n") == ""
    ensures Line("wait\nloop\n") == "wait" && Rest("wait\nloop\n") == "loop\n"
    ensures "loop" in Lines("loop\n") && "loop" in Lines("wait\nloop\n")
  {
    LoopBreaks();
    hide Break;
    assert "loop\n"[..4] == "loop" && "loop\n"[5..] == "";
    assert "wait\nloop\n"[..4] == "wait" && "wait\nloop\n"[5..] == "loop\n";
    NoLines();
  }

  lemma LoopBreaks()
    ensures Break("loop\n") == 4 && Break("wait\nloop\n") == 4
  {
  }

  lemma {:induction false} LoopNotNested(env: Env, depth: nat)
    requires Inserted(env, "loop") == "wait\nloop\n"
    ensures !Nested(env, "loop\n", depth) && !Nested(env, "wait\nloop\n", depth)
  {
    hide Lines, Inserted;
    LoopLines();
    if depth > 0 {
      LoopNotNested(env, depth - 1);
      assert !NestsTo(env, "loop", depth - 1);
    }
  }

  // ----- depth from ranks

  /** Terminated text is inserted by a line that has a rank, all of it of lower rank. A line with
      a negative rank has none: it is not to get a turn. */
  ghost predicate Ranked(env: Env, rank: string -> int) {
    forall line :: rank(line) >= 0 ==>
      Terminated(Inserted(env, line)) && AllBelow(Inserted(env, line), rank, rank(line))
  }

  ghost predicate AllBelow(text: string, rank: string -> int, bound: int) {
    forall line :: line in Lines(text) ==> 0 <= rank(line) < bound
  }

  /** Insertions are nested to a finite depth if and only if all lines that may run can be ranked. */
  lemma NestedIffRanked(env: Env, text: string, depth: nat)
    ensures Nested(env, text, depth) <==> exists rank: string -> int :: Ranked(env, rank) && AllBelow(text, rank, depth)
  {
    if Nested(env, text, depth) {
      DepthsRank(env, text, depth);
    }
    if exists rank: string -> int :: Ranked(env, rank) && AllBelow(text, rank, depth) {
      var rank: string -> int :| Ranked(env, rank) && AllBelow(text, rank, depth);
      RankedNested(env, rank, text, depth);
    }
  }

  lemma {:induction false} RankedNested(env: Env, rank: string -> int, text: string, bound: nat)
    requires Ranked(env, rank) && AllBelow(text, rank, bound)
    ensures Nested(env, text, bound)
    decreases bound
  {
    hide Inserted, Lines, Terminated;
    forall line | line in Lines(text) ensures bound > 0 && NestsTo(env, line, bound - 1) {
      BelowMore(Inserted(env, line), rank, rank(line), bound - 1);
      RankedNested(env, rank, Inserted(env, line), bound - 1);
    }
  }

  lemma BelowMore(text: string, rank: string -> int, a: int, b: int)
    requires AllBelow(text, rank, a) && a <= b
    ensures AllBelow(text, rank, b)
  {
    hide Lines;
  }

  /** The least depth that a line's insertions are nested to, or -1. */
  ghost function Depth(env: Env, line: string): (d: int)
    ensures d >= 0 ==> NestsTo(env, line, d)
    ensures forall depth: nat :: NestsTo(env, line, depth) ==> 0 <= d <= depth
  {
    if exists depth: nat :: NestsTo(env, line, depth) then
      var depth: nat :| NestsTo(env, line, depth);
      LeastUpTo(env, line, depth)
    else -1
  }

  ghost function LeastUpTo(env: Env, line: string, depth: nat): (d: nat)
    requires NestsTo(env, line, depth)
    ensures NestsTo(env, line, d) && forall k: nat :: NestsTo(env, line, k) ==> d <= k
  {
    if depth > 0 && NestsTo(env, line, depth - 1) then LeastUpTo(env, line, depth - 1)
    else
      NotDeeper(env, line, depth);
      depth
  }

  lemma NotDeeper(env: Env, line: string, depth: nat)
    requires depth > 0 ==> !NestsTo(env, line, depth - 1)
    ensures forall k: nat :: NestsTo(env, line, k) ==> depth <= k
  {
    forall k: nat | NestsTo(env, line, k) ensures depth <= k {
      if k < depth {
        NestedMore(env, Inserted(env, line), k, depth - 1);
      }
    }
  }

  lemma DepthsRank(env: Env, text: string, depth: nat)
    requires Nested(env, text, depth)
    ensures exists rank: string -> int :: Ranked(env, rank) && AllBelow(text, rank, depth)
  {
    hide Inserted, Lines, Terminated;
    var rank := line => Depth(env, line);
    forall line | rank(line) >= 0
      ensures Terminated(Inserted(env, line)) && AllBelow(Inserted(env, line), rank, rank(line))
    {
      assert NestsTo(env, line, rank(line));
      DepthsBelow(env, Inserted(env, line), rank(line), rank);
    }
    DepthsBelow(env, text, depth, rank);
  }

  lemma DepthsBelow(env: Env, text: string, depth: nat, rank: string -> int)
    requires Nested(env, text, depth) && forall line :: rank(line) == Depth(env, line)
    ensures AllBelow(text, rank, depth)
  {
    hide Inserted, Lines, Terminated;
    forall line | line in Lines(text) ensures 0 <= rank(line) < depth {
      assert NestsTo(env, line, depth - 1);
    }
  }

  /** A line's rank from ranks of alias names and of lines whose command inserts text. */
  function LineRank(env: Env, aliasRank: string -> int, insertRank: string -> int, line: string): int {
    if line == "" || env.token(line) == None then 0
    else
      var name := env.token(line).value;
      if FirstNamed(env.commands, name) < |env.commands| then (if Inserted(env, line) == "" then 0 else insertRank(line))
      else if FirstNamed(env.aliases, name) < |env.aliases| then aliasRank(Lower(name))
      else 0
  }

  /** What an alias or an inserting command with a rank brings in is terminated and of lower rank.
      An alias without a rank, such as one that names itself, may be there as long as none with
      a rank names it. */
  ghost predicate NamesRanked(env: Env, aliasRank: string -> int, insertRank: string -> int) {
    && (forall line :: Inserting(env, line) && insertRank(line) >= 0 ==>
          BringsBelow(env, aliasRank, insertRank, Inserted(env, line), insertRank(line)))
    && (forall name :: AliasOf(env, name).Some? && aliasRank(Lower(name)) >= 0 ==>
          BringsBelow(env, aliasRank, insertRank, AliasOf(env, name).value, aliasRank(Lower(name))))
  }

  ghost predicate BringsBelow(env: Env, aliasRank: string -> int, insertRank: string -> int, text: string, bound: int) {
    Terminated(text) && forall line :: line in Lines(text) ==> 0 <= LineRank(env, aliasRank, insertRank, line) < bound
  }

  /** A command that the line names inserts text. */
  predicate Inserting(env: Env, line: string) {
    env.token(line).Some? && FirstNamed(env.commands, env.token(line).value) < |env.commands| && Inserted(env, line) != ""
  }

  /** The text of the alias of that name, unless a command shadows it. */
  function AliasOf(env: Env, name: string): Option<string> {
    var a := FirstNamed(env.aliases, name);
    if FirstNamed(env.commands, name) < |env.commands| || a == |env.aliases| then None else Some(env.aliases[a].value)
  }

  /** A line that names neither an alias nor an inserting command has rank 0. */
  lemma PlainLineRank(env: Env, aliasRank: string -> int, insertRank: string -> int, line: string)
    ensures line == "" || env.token(line) == None
            || (AliasOf(env, env.token(line).value) == None && Inserted(env, line) == "") ==>
              LineRank(env, aliasRank, insertRank, line) == 0
  {
    hide FirstNamed;
  }

  /** That is all it takes, and no less, if every alias can be called. */
  lemma NamesRankedIff(env: Env, aliasRank: string -> int, insertRank: string -> int)
    requires forall name :: AliasOf(env, name).Some? ==> exists line :: line != "" && env.token(line) == Some(name)
    ensures NamesRanked(env, aliasRank, insertRank) <==> Ranked(env, line => LineRank(env, aliasRank, insertRank, line))
  {
    hide Lines, FirstNamed, Lower, Terminated;
    var rank := line => LineRank(env, aliasRank, insertRank, line);
    if NamesRanked(env, aliasRank, insertRank) {
      NamesRank(env, aliasRank, insertRank);
    }
    if Ranked(env, rank) {
      forall line | Inserting(env, line) && insertRank(line) >= 0
        ensures BringsBelow(env, aliasRank, insertRank, Inserted(env, line), insertRank(line))
      {
        assert rank(line) == insertRank(line);
      }
      forall name | AliasOf(env, name).Some? && aliasRank(Lower(name)) >= 0
        ensures BringsBelow(env, aliasRank, insertRank, AliasOf(env, name).value, aliasRank(Lower(name)))
      {
        var line :| line != "" && env.token(line) == Some(name);
        assert rank(line) == aliasRank(Lower(name)) && Inserted(env, line) == AliasOf(env, name).value;
      }
    }
  }

  /** Ranking names and inserting lines ranks every line. */
  lemma NamesRank(env: Env, aliasRank: string -> int, insertRank: string -> int)
    requires NamesRanked(env, aliasRank, insertRank)
    ensures Ranked(env, line => LineRank(env, aliasRank, insertRank, line))
  {
    hide Lines, FirstNamed, Lower;
    var rank := line => LineRank(env, aliasRank, insertRank, line);
    forall line | rank(line) >= 0
      ensures Terminated(Inserted(env, line)) && AllBelow(Inserted(env, line), rank, rank(line))
    {
      NoLines();
      if line != "" && env.token(line).Some? {
        var name := env.token(line).value;
        if FirstNamed(env.commands, name) < |env.commands| {
          assert Inserted(env, line) != "" ==> Inserting(env, line);
        } else {
          assert AliasOf(env, name).Some? ==> Inserted(env, line) == AliasOf(env, name).value;
        }
      }
    }
  }

  lemma NoLines()
    ensures Lines("") == []
  {
  }

  lemma NothingRan(env: Env, room: nat, text: string, n: nat)
    requires text == "" || n == 0
    ensures NonEmpty(Ran(env, room, text, n)) == [] && After(env, room, text, n) == text
  {
  }

  lemma {:induction false} NonEmptyConcat(a: seq<string>, b: seq<string>)
    ensures NonEmpty(a + b) == NonEmpty(a) + NonEmpty(b)
  {
    if a == [] {
      assert a + b == b;
    } else {
      NonEmptyConcat(a[1..], b);
      LineDone(a[0], a[1..]);
      LineDone(a[0], a[1..] + b);
      hide NonEmpty;
      assert a == [a[0]] + a[1..] && a + b == [a[0]] + (a[1..] + b);
    }
  }

  /** A line that waits is executed: it is not empty. */
  lemma {:induction false} LastWait(env: Env, ran: seq<string>)
    ensures ran != [] && Waits(env, ran[|ran| - 1]) ==>
              NonEmpty(ran) != [] && NonEmpty(ran)[|NonEmpty(ran)| - 1] == ran[|ran| - 1]
  {
    if ran != [] {
      LastWait(env, ran[1..]);
    }
  }

  // ----- the buffer

  lemma Joined(data: seq<char>, a: string, b: string)
    requires |a| + |b| <= |data|
    requires forall k :: 0 <= k < |a| ==> data[k] == a[k]
    requires forall k :: 0 <= k < |b| ==> data[|a| + k] == b[k]
    ensures data[..|a| + |b|] == a + b
  {
  }

  lemma LineJoined(data: seq<char>, text: string, b: string)
    requires |text| + 2 + |b| <= |data| && data[0] == data[|text| + 1] == '\n'
    requires forall k :: 0 <= k < |text| ==> data[1 + k] == text[k]
    requires forall k :: 0 <= k < |b| ==> data[|text| + 2 + k] == b[k]
    ensures data[..|text| + 2 + |b|] == "\n" + text + "\n" + b
  {
  }

  lemma MovedDown(data: seq<char>, before: string, i: nat)
    requires i <= |before| <= |data| && forall k :: 0 <= k < |before| - i ==> data[k] == before[i + k]
    ensures data[..|before| - i] == before[i..]
  {
  }

  class CommandBuffer {
    const data: array<char>
    var cursize: nat
    var cmd_wait: bool
    const env: Env

    ghost var executed: seq<string>  // the lines handed to Cmd_ExecuteString so far

    ghost predicate Valid()
      reads this
    {
      cursize <= data.Length
    }

    function Text(): string
      requires Valid()
      reads this, data
    {
      data[..cursize]
    }

    constructor (maxsize: nat, env: Env)
      ensures Valid() && Text() == "" && !cmd_wait && executed == [] && data.Length == maxsize && this.env == env
    {
      data := new char[maxsize](_ => ' ');
      cursize := 0;
      cmd_wait := false;
      this.env := env;
      executed := [];
    }

    /** Cbuf_AddText */
    method AddText(text: string)
      requires Valid()
      modifies this`cursize, data
      ensures Valid()
      ensures Text() == old(Text()) + if old(cursize) + |text| >= data.Length then "" else text
    {
      if cursize + |text| >= data.Length {
        return;
      }
      ghost var before := data[..cursize];
      forall k | 0 <= k < |text| {
        data[cursize + k] := text[k];
      }
      cursize := cursize + |text|;
      Joined(data[..], before, text);
    }

    /** Cbuf_InsertText */
    method InsertText(text: string)
      requires Valid()
      modifies this`cursize, data
      ensures Valid()
      ensures Text() == (if old(cursize) + |text| >= data.Length then "" else text) + old(Text())
    {
      if cursize + |text| >= data.Length {
        return;
      }
      ghost var before := data[..cursize];
      var n := |text|;
      forall k | 0 <= k < cursize {
        data[n + k] := data[k];
      }
      forall k | 0 <= k < n {
        data[k] := text[k];
      }
      cursize := cursize + n;
      Joined(data[..], text, before);
    }

    /** Cbuf_InsertTextLines */
    method InsertTextLines(text: string)
      requires Valid()
      modifies this`cursize, data
      ensures Valid()
      ensures Text() == (if old(cursize) + |text| + 2 >= data.Length then "" else "\n" + text + "\n") + old(Text())
    {
      if cursize + |text| + 2 >= data.Length {
        return;
      }
      ghost var before := data[..cursize];
      var n := |text|;
      forall k | 0 <= k < cursize {
        data[n + 2 + k] := data[k];
      }
      data[0] := '\n';
      forall k | 0 <= k < n {
        data[1 + k] := text[k];
      }
      data[n + 1] := '\n';
      cursize := cursize + n + 2;
      LineJoined(data[..], text, before);
    }

    /** Cmd_ExecuteString: commands are looked up before aliases. */
    method ExecuteString(line: string)
      requires Valid() && line != ""
      modifies this`cursize, this`cmd_wait, this`executed, data
      ensures Valid()
      ensures executed == old(executed) + [line]
      ensures cmd_wait == (old(cmd_wait) || EffectOf(env, line) == Wait)
      ensures Text() == (if old(cursize) + |Inserted(env, line)| < data.Length then Inserted(env, line) else "") + old(Text())
    {
      executed := executed + [line];
      var name := env.token(line);
      if name == None {
        assert "" + Text() == Text();
        return;
      }
      var i := FindNamed(env.commands, name.value);
      if i < |env.commands| {
        match env.commands[i].value(line) {
          case Plain =>
          case Wait => cmd_wait := true;
          case Insert(text) => InsertText(text);
          case InsertLines(text) => InsertTextLines(text);
        }
        assert "" + old(Text()) == old(Text());
        return;
      }
      var j := FindNamed(env.aliases, name.value);
      if j < |env.aliases| {
        assert Inserted(env, line) == env.aliases[j].value;
        InsertText(env.aliases[j].value);
      } else {
        assert Inserted(env, line) == "";
        assert "" + Text() == Text();
      }
    }

    /** The list searches of Cmd_ExecuteString. */
    method FindNamed<T>(items: seq<Named<T>>, name: string) returns (i: nat)
      ensures i == FirstNamed(items, name)
    {
      i := 0;
      while i < |items|
        invariant i <= |items| && FirstNamed(items, name) == i + FirstNamed(items[i..], name)
      {
        if Stricmp(name, items[i].name) == 0 {
          return;
        }
        assert items[i..][1..] == items[i + 1..];
        i := i + 1;
      }
    }

    /** The scan in Cbuf_Execute for the end of the first line. */
    method FindBreak() returns (i: nat)
      requires Valid()
      ensures i == Break(Text())
    {
      var quotes := 0;
      var commented := cursize > 1 && data[0] == '/' && data[1] == '/';
      i := 0;
      while i < cursize
        invariant i <= cursize
        invariant BreakFrom(Text(), i, quotes % 2 == 1, commented) == Break(Text())
      {
        if data[i] == '"' {
          quotes := quotes + 1;
        }
        if quotes % 2 == 0 && !commented && data[i] == ';' {
          break;
        }
        if data[i] == '\n' {
          break;
        }
        i := i + 1;
      }
    }

    /** The part of Cbuf_Execute that takes the first line out of the buffer. */
    method TakeLine() returns (line: string)
      requires Valid() && cursize > 0
      modifies this`cursize, data
      ensures Valid()
      ensures line == Line(old(Text())) && Text() == Rest(old(Text()))
      ensures var text, b := old(Text()), Break(old(Text()));
              && (forall k :: 0 <= k < b ==> !Stops(text, k)) && (b < |text| ==> Stops(text, b))
              && line == text[..if b < 1024 then b else 1023] && Text() == if b == |text| then "" else text[b + 1..]
    {
      BreakStops(Text());
      hide BreakFrom, Commented, Break;
      var i := FindBreak();
      var len := if i > MAX_CMD_LINE - 1 then MAX_CMD_LINE - 1 else i;
      line := data[..len];
      ghost var before := Text();
      if i == cursize {
        cursize := 0;
      } else {
        i := i + 1;
        cursize := cursize - i;
        forall k | 0 <= k < cursize {
          data[k] := data[i + k];
        }
        MovedDown(data[..], before, i);
      }
    }

    /** A turn of Cbuf_Execute. */
    method TakeTurn()
      requires Valid() && cursize > 0
      modifies this`cursize, this`cmd_wait, this`executed, data
      ensures Valid()
      ensures var line := Line(old(Text()));
              && executed == old(executed) + (if line == "" then [] else [line])
              && Text() == Next(env, data.Length, old(Text()))
              && (cmd_wait <==> old(cmd_wait) || Waits(env, line))
    {
      hide Line, Rest, EffectOf;
      var line := TakeLine();
      if line != "" {
        ExecuteString(line);
      }
    }

    /** Cbuf_Execute, for every text whose run has an end; n is its length. */
    method Execute(ghost n: nat)
      requires Valid() && Runs(env, data.Length, cmd_wait, Text(), n)
      modifies this`cursize, this`cmd_wait, this`executed, data
      ensures Valid()
      ensures executed == old(executed) + NonEmpty(Ran(env, data.Length, old(Text()), n))
      ensures Text() == After(env, data.Length, old(Text()), n)
      ensures cmd_wait <==> old(cmd_wait) && n == 0
    {
      hide Line, NonEmpty, Next, Waits;
      ghost var left := n;
      while cursize > 0
        invariant Valid() && cmd_wait == old(cmd_wait) && Runs(env, data.Length, cmd_wait, Text(), left)
        invariant n > 0 ==> cursize > 0 || !cmd_wait
        invariant executed + NonEmpty(Ran(env, data.Length, Text(), left))
                  == old(executed) + NonEmpty(Ran(env, data.Length, old(Text()), n))
        invariant After(env, data.Length, Text(), left) == After(env, data.Length, old(Text()), n)
        decreases left
      {
        LineDone(Line(Text()), Ran(env, data.Length, Next(env, data.Length, Text()), left - 1));
        TakeTurn();
        left := left - 1;
        if cmd_wait {
          cmd_wait := false;
          break;
        }
      }
      NothingRan(env, data.Length, Text(), left);
    }

    /** Cbuf_Execute on text whose insertions are nested to a finite depth, with room for them:
        it ends, and the lines it executed followed by the expansion of what it left are the
        depth-first expansion of the text. */
    method ExecuteNested(ghost depth: nat)
      requires Valid() && Nested(env, Text(), depth) && Peak(env, Text(), depth) < data.Length
      modifies this`cursize, this`cmd_wait, this`executed, data
      ensures Valid() && Nested(env, Text(), depth)
      ensures executed + NonEmpty(Trace(env, Text(), depth)) == old(executed) + NonEmpty(Trace(env, old(Text()), depth))
      ensures Text() == "" || old(cmd_wait) || (executed != [] && Waits(env, executed[|executed| - 1]))
    {
      hide *;
      ghost var n := RunExpands(env, data.Length, cmd_wait, Text(), depth);
      StopsAtWait(env, data.Length, cmd_wait, Text(), n);
      ghost var ran := Ran(env, data.Length, Text(), n);
      Execute(n);
      NonEmptyConcat(ran, Trace(env, Text(), depth));
      LastWait(env, ran);
    }
  }
}
