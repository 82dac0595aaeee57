/** The process command line, kept as one zero-terminated string that is edited in place. */
module CommandLine {
  import opened Options

  const NUL := '\0'

  // ----- zero-terminated strings

  /** strlen, on the memory that starts with the string. */
  function Len(mem: seq<char>): (n: nat)
    ensures n <= |mem|
    ensures n < |mem| ==> mem[n] == NUL
    ensures forall i :: 0 <= i < n ==> mem[i] != NUL
  {
    if mem == [] || mem[0] == NUL then 0 else 1 + Len(mem[1..])
  }

  function CStr(mem: seq<char>): (s: string)
    ensures |s| <= |mem| && NUL !in s
  {
    mem[..Len(mem)]
  }

  lemma {:induction false} LenIs(mem: seq<char>, n: nat)
    requires n <= |mem| && (forall i :: 0 <= i < n ==> mem[i] != NUL) && (n < |mem| ==> mem[n] == NUL)
    ensures Len(mem) == n
  {
    if n > 0 {
      LenIs(mem[1..], n - 1);
    }
  }

  predicate OccursAt(line: string, parm: string, i: nat) {
    i + |parm| <= |line| && line[i..i + |parm|] == parm
  }

  /** strstr: the first place at or after i where the parameter occurs. */
  function FindFrom(line: string, parm: string, i: nat): (r: Option<nat>)
    requires i <= |line|
    ensures r.Some? ==> i <= r.value && OccursAt(line, parm, r.value)
    ensures r.Some? ==> forall j :: i <= j < r.value ==> !OccursAt(line, parm, j)
    ensures r.None? ==> forall j :: i <= j ==> !OccursAt(line, parm, j)
    decreases |line| - i
  {
    if OccursAt(line, parm, i) then Some(i)
    else if i == |line| then None
    else FindFrom(line, parm, i + 1)
  }

  function Find(line: string, parm: string): (r: Option<nat>)
    ensures r.Some? ==> OccursAt(line, parm, r.value)
    ensures r.None? ==> Absent(line, parm)
  {
    FindFrom(line, parm, 0)
  }

  ghost predicate Absent(line: string, parm: string) {
    forall i :: 0 <= i ==> !OccursAt(line, parm, i)
  }

  // ----- removing a parameter

  /** The next '-' or '+' at or after i, or the end. */
  function NextParam(line: string, i: nat): (j: nat)
    requires i <= |line|
    ensures i <= j <= |line|
    ensures forall k :: i <= k < j ==> line[k] != '-' && line[k] != '+'
    ensures j < |line| ==> line[j] == '-' || line[j] == '+'
    decreases |line| - i
  {
    if i == |line| || line[i] == '-' || line[i] == '+' then i else NextParam(line, i + 1)
  }

  /** The line with what stands from i to the next parameter taken out. */
  function CutAt(line: string, i: nat): (r: string)
    requires i < |line|
    ensures |r| < |line|
  {
    line[..i] + line[NextParam(line, i + 1)..]
  }

  /** The line with cuts made until the parameter no longer occurs. */
  function Removed(line: string, parm: string): (r: string)
    requires parm != ""
    ensures Absent(r, parm)
    decreases |line|
  {
    match Find(line, parm)
    case None => line
    case Some(i) => Removed(CutAt(line, i), parm)
  }

  function Stripped(line: string): (r: string)
    ensures r <= line
    ensures r == "" || r[|r| - 1] != ' '
    ensures forall k :: |r| <= k < |line| ==> line[k] == ' '
    decreases |line|
  {
    if line == "" || line[|line| - 1] != ' ' then line else Stripped(line[..|line| - 1])
  }

  /** What RemoveParm makes of a line. */
  function WithoutParm(line: string, parm: string): string {
    if parm == "" then line else Stripped(Removed(line, parm))
  }

  /** After RemoveParm the parameter does not occur and no space is left at the end. */
  lemma WithoutParmClean(line: string, parm: string)
    requires parm != ""
    ensures Absent(WithoutParm(line, parm), parm)
    ensures var r := WithoutParm(line, parm); r == "" || r[|r| - 1] != ' '
    ensures |WithoutParm(line, parm)| <= |line|
  {
    var r, s := Removed(line, parm), Stripped(Removed(line, parm));
    forall i | 0 <= i ensures !OccursAt(s, parm, i) {
      assert !OccursAt(r, parm, i);
      if i + |parm| <= |s| {
        assert s[i..i + |parm|] == r[i..i + |parm|];
      }
    }
    RemovedShorter(line, parm);
  }

  lemma {:induction false} RemovedShorter(line: string, parm: string)
    requires parm != ""
    ensures |Removed(line, parm)| <= |line|
    decreases |line|
  {
    match Find(line, parm)
    case None =>
    case Some(i) => RemovedShorter(CutAt(line, i), parm);
  }

  /** A line that lacks the parameter loses nothing but trailing spaces, so removing twice
      is removing once. */
  lemma RemovedTwice(line: string, parm: string)
    ensures WithoutParm(WithoutParm(line, parm), parm) == WithoutParm(line, parm)
  {
    if parm != "" {
      var r := WithoutParm(line, parm);
      WithoutParmClean(line, parm);
      assert Find(r, parm) == None;
      assert Removed(r, parm) == r;
    }
  }

  // ----- setting a parameter and getting its value

  /** What AppendParm makes of a line; None is no command line. */
  function Appended(line: Option<string>, parm: string, values: Option<string>): string {
    var tail := parm + if values.Some? then " " + values.value else "";
    if line.None? then tail else WithoutParm(line.value, parm) + " " + tail
  }

  /** What SetParm makes of a line. */
  function WithParm(line: Option<string>, parm: string, values: Option<string>): string {
    Appended(if line.None? then None else Some(WithoutParm(line.value, parm)), parm, values)
  }

  /** A parameter that was appended or set without a value is on the line, at the end of what was
      left, and has no value. */
  lemma SetWithoutValue(line: Option<string>, parm: string)
    requires parm != "" && ' ' !in parm
    ensures var at := if line.None? then 0 else |WithoutParm(line.value, parm)| + 1;
            && Find(Appended(line, parm, None), parm) == Find(WithParm(line, parm, None), parm) == Some(at)
            && at + |parm| == |Appended(line, parm, None)| == |WithParm(line, parm, None)|
    ensures ValueOf(Appended(line, parm, None), parm) == ValueOf(WithParm(line, parm, None), parm) == None
    ensures line.Some? ==> WithoutParm(line.value, parm) + " " + parm == Appended(line, parm, None)
  {
    hide WithoutParm, Find, NextSpace, OccursAt;
    var before := if line.None? then "" else WithoutParm(line.value, parm) + " ";
    NothingAbsent(parm);
    if line.Some? {
      RemovedTwice(line.value, parm);
      WithoutParmClean(line.value, parm);
      AbsentWithSpace(WithoutParm(line.value, parm), parm);
    }
    var r := before + parm + "";
    assert Appended(line, parm, None) == WithParm(line, parm, None) == r;
    FoundBehind(before, parm, "");
    NextSpaceIs(r, |before| + 1, |r|);
  }

  /** An empty parameter removes nothing, and a parameter is removed from all of the line. */
  lemma NothingToRemove(line: string)
    ensures WithoutParm(line, "") == line
  {
  }

  /** The next space at or after i, or the end. */
  function NextSpace(line: string, i: nat): (j: nat)
    requires i <= |line|
    ensures i <= j <= |line|
    ensures j < |line| ==> line[j] == ' '
    ensures forall k :: i <= k < j ==> line[k] != ' '
    decreases |line| - i
  {
    if i == |line| || line[i] == ' ' then i else NextSpace(line, i + 1)
  }

  /** The word after the one that the parameter is found in; None if none follows. */
  function ValueOf(line: string, parm: string): Option<string>
    requires parm != "" || line != ""
  {
    match Find(line, parm)
    case None => None
    case Some(i) =>
      var end := NextSpace(line, i + 1);
      if end == |line| then None else Some(line[end + 1..NextSpace(line, end + 1)])
  }

  function FirstWord(s: string): (w: string)
    ensures w <= s && ' ' !in w && (|w| < |s| ==> s[|w|] == ' ')
  {
    s[..NextSpace(s, 0)]
  }

  lemma {:induction false} NextSpaceFrom(line: string, i: nat, j: nat)
    requires i <= j <= |line| && forall k :: i <= k < j ==> line[k] != ' '
    ensures NextSpace(line, i) == NextSpace(line, j)
    decreases j - i
  {
    if i < j {
      NextSpaceFrom(line, i + 1, j);
    }
  }

  lemma NextSpaceIs(line: string, i: nat, j: nat)
    requires i <= j <= |line| && (forall k :: i <= k < j ==> line[k] != ' ') && (j < |line| ==> line[j] == ' ')
    ensures NextSpace(line, i) == j
  {
    NextSpaceFrom(line, i, j);
  }

  /** A word behind text that lacks it, and a space, is found right there. */
  lemma FoundBehind(before: string, word: string, after: string)
    requires word != "" && ' ' !in word && Absent(before, word)
    requires before == "" || before[|before| - 1] == ' '
    ensures Find(before + word + after, word) == Some(|before|)
  {
    var line := before + word + after;
    assert OccursAt(line, word, |before|);
    forall j | 0 <= j < |before| ensures !OccursAt(line, word, j) {
      assert !OccursAt(before, word, j);
      assert j + |word| <= |before| ==> before[j..j + |word|] == line[j..j + |word|];
      assert |before| < j + |word| <= |line| ==>
          line[j..j + |word|][|before| - 1 - j] == line[|before| - 1] == ' ';
    }
  }

  lemma AbsentWithSpace(line: string, word: string)
    requires word != "" && ' ' !in word && Absent(line, word)
    ensures Absent(line + " ", word)
  {
    forall j | 0 <= j ensures !OccursAt(line + " ", word, j) {
      assert !OccursAt(line, word, j);
      assert j + |word| <= |line| ==> (line + " ")[j..j + |word|] == line[j..j + |word|];
      assert j + |word| == |line| + 1 ==> (line + " ")[j..j + |word|][|word| - 1] == (line + " ")[|line|] == ' ';
    }
  }

  /** The set/get law: whatever the command line was, a parameter that was set to a value
      has the first word of that value, so the whole value exactly if it has no space. */
  lemma SetThenGet(line: Option<string>, parm: string, value: string)
    requires parm != "" && ' ' !in parm
    ensures ValueOf(WithParm(line, parm, Some(value)), parm) == Some(FirstWord(value))
    ensures ValueOf(WithParm(line, parm, Some(value)), parm) == Some(value) <==> ' ' !in value
  {
    hide WithoutParm, Find, NextSpace, OccursAt;
    var before := if line.None? then "" else WithoutParm(line.value, parm) + " ";
    NothingAbsent(parm);
    if line.Some? {
      RemovedTwice(line.value, parm);
      WithoutParmClean(line.value, parm);
      AbsentWithSpace(WithoutParm(line.value, parm), parm);
    }
    assert WithParm(line, parm, Some(value)) == before + parm + (" " + value);
    ValueBehind(before, parm, value);
    FirstWordWhole(value);
  }

  lemma NothingAbsent(parm: string)
    requires parm != ""
    ensures Absent("", parm)
  {
  }

  lemma ValueBehind(before: string, parm: string, value: string)
    requires parm != "" && ' ' !in parm && Absent(before, parm)
    requires before == "" || before[|before| - 1] == ' '
    ensures ValueOf(before + parm + (" " + value), parm) == Some(FirstWord(value))
  {
    hide Find, NextSpace, OccursAt;
    var line := before + parm + (" " + value);
    FoundBehind(before, parm, " " + value);
    var end := |before| + |parm|;
    NextSpaceIs(line, |before| + 1, end);
    assert before + parm + " " + value == line;
    WordAfter(before + parm + " ", value);
  }

  lemma WordAfter(prefix: string, value: string)
    ensures (prefix + value)[|prefix|..NextSpace(prefix + value, |prefix|)] == FirstWord(value)
  {
    NextSpaceIs(prefix + value, |prefix|, |prefix| + NextSpace(value, 0));
  }

  lemma FirstWordWhole(value: string)
    ensures FirstWord(value) == value <==> ' ' !in value
  {
    if ' ' !in value {
      NextSpaceIs(value, 0, |value|);
    }
  }

  // ----- what removing a parameter leaves

  predicate Sign(c: char) {
    c == '-' || c == '+'
  }

  /** A parameter as they are written: one sign, in front. */
  predicate IsParm(parm: string) {
    parm != "" && Sign(parm[0]) && forall k :: 1 <= k < |parm| ==> !Sign(parm[k])
  }

  /** The line cut in front of every sign: a parameter with what is attached to it, each. */
  function Segments(line: string): seq<string>
    decreases |line|
  {
    if line == "" then [] else [line[..NextParam(line, 1)]] + Segments(line[NextParam(line, 1)..])
  }

  function Join(segments: seq<string>): string {
    if segments == [] then "" else segments[0] + Join(segments[1..])
  }

  /** The segments that do not begin with the parameter. */
  function Lacking(segments: seq<string>, parm: string): (r: seq<string>)
    ensures forall s :: s in r <==> s in segments && !(parm <= s)
  {
    if segments == [] then []
    else (if parm <= segments[0] then [] else [segments[0]]) + Lacking(segments[1..], parm)
  }

  lemma {:induction false} JoinSegments(line: string)
    ensures Join(Segments(line)) == line
    decreases |line|
  {
    if line != "" {
      JoinSegments(line[NextParam(line, 1)..]);
    }
  }

  /** A cut is made in front of x, if that begins with a sign. */
  predicate CutBefore(x: string) {
    x == "" || Sign(x[0])
  }

  lemma {:induction false} NextParamIs(line: string, i: nat, j: nat)
    requires i <= j <= |line| && (forall k :: i <= k < j ==> !Sign(line[k])) && (j < |line| ==> Sign(line[j]))
    ensures NextParam(line, i) == j
    decreases j - i
  {
    if i < j {
      NextParamIs(line, i + 1, j);
    }
  }

  lemma {:induction false} NextParamHas(line: string, i: nat)
    requires i <= |line|
    ensures var j := NextParam(line, i); (forall k :: i <= k < j ==> !Sign(line[k])) && (j < |line| ==> Sign(line[j]))
    decreases |line| - i
  {
    if i < |line| && !Sign(line[i]) {
      NextParamHas(line, i + 1);
    }
  }

  lemma {:induction false} SegmentsConcat(a: string, x: string)
    requires CutBefore(x)
    ensures Segments(a + x) == Segments(a) + Segments(x)
    decreases |a|
  {
    if a == "" {
      assert a + x == x;
    } else {
      FirstSegment(a, x);
      var j := NextParam(a, 1);
      SegmentsConcat(a[j..], x);
      Unfolded(a);
      Unfolded(a + x);
      hide Segments, NextParam;
      Associate([a[..j]], Segments(a[j..]), Segments(x));
    }
  }

  lemma Unfolded(line: string)
    requires line != ""
    ensures Segments(line) == [line[..NextParam(line, 1)]] + Segments(line[NextParam(line, 1)..])
  {
    hide NextParam;
  }

  lemma Associate(a: seq<string>, b: seq<string>, c: seq<string>)
    ensures a + (b + c) == a + b + c
  {
  }

  /** The first segment of a line does not depend on what stands behind a cut. */
  lemma FirstSegment(a: string, x: string)
    requires a != "" && CutBefore(x)
    ensures var j := NextParam(a, 1); NextParam(a + x, 1) == j && (a + x)[..j] == a[..j] && (a + x)[j..] == a[j..] + x
  {
    hide NextParam;
    NextParamHas(a, 1);
    NextParamIs(a + x, 1, NextParam(a, 1));
  }

  /** Text with no sign behind its first character is a segment of its own. */
  lemma OneSegment(s: string)
    requires s != "" && forall k :: 1 <= k < |s| ==> !Sign(s[k])
    ensures Segments(s) == [s]
  {
    NextParamIs(s, 1, |s|);
    assert s[..|s|] == s && s[|s|..] == "";
  }

  lemma {:induction false} LackingConcat(a: seq<string>, b: seq<string>, parm: string)
    ensures Lacking(a + b, parm) == Lacking(a, parm) + Lacking(b, parm)
    decreases |a|
  {
    if a == [] {
      assert a + b == b;
    } else {
      hide *;
      var x, rest := a[0], a[1..];
      assert a == [x] + rest && a + b == [x] + (rest + b);
      LackingConcat(rest, b, parm);
      FirstLacking(x, rest, parm);
      FirstLacking(x, rest + b, parm);
      if !(parm <= x) {
        Associate([x], Lacking(rest, parm), Lacking(b, parm));
      }
    }
  }

  lemma FirstLacking(s: string, segments: seq<string>, parm: string)
    ensures Lacking([s] + segments, parm) == if parm <= s then Lacking(segments, parm) else [s] + Lacking(segments, parm)
  {
    assert ([s] + segments)[1..] == segments;
  }

  /** A parameter that occurs lies between two cuts. */
  lemma OccurrenceCut(line: string, parm: string, i: nat)
    requires IsParm(parm) && OccursAt(line, parm, i)
    ensures var j := NextParam(line, i + 1);
            && parm <= line[i..j] && CutBefore(line[i..]) && CutBefore(line[j..])
            && forall k :: 1 <= k < |line[i..j]| ==> !Sign(line[i..j][k])
  {
    hide NextParam;
    var j := NextParam(line, i + 1);
    NextParamHas(line, i + 1);
    assert forall k :: 0 <= k < |parm| ==> line[i..i + |parm|][k] == line[i + k] == parm[k];
    if j < i + |parm| {
      NoSignInside(parm, j - i);
    }
    assert line[i..j][..|parm|] == line[i..i + |parm|];
  }

  lemma NoSignInside(parm: string, k: nat)
    requires IsParm(parm) && 1 <= k < |parm|
    ensures !Sign(parm[k])
  {
  }

  lemma ThreeParts(a: string, s: string, c: string)
    requires s != "" && CutBefore(s) && CutBefore(c) && forall k :: 1 <= k < |s| ==> !Sign(s[k])
    ensures Segments(a + s + c) == Segments(a) + [s] + Segments(c)
  {
    hide Segments;
    OneSegment(s);
    SegmentsConcat(a, s);
    SegmentsConcat(a + s, c);
  }

  /** An occurrence of a parameter begins a segment, and lies in it. */
  lemma OccurrenceBegins(line: string, parm: string, i: nat)
    requires IsParm(parm) && OccursAt(line, parm, i)
    ensures var j := NextParam(line, i + 1);
            && parm <= line[i..j] && CutBefore(line[i..]) && CutBefore(line[j..])
            && Segments(line) == Segments(line[..i]) + [line[i..j]] + Segments(line[j..])
  {
    hide NextParam, Segments;
    var j := NextParam(line, i + 1);
    OccurrenceCut(line, parm, i);
    assert line == line[..i] + line[i..j] + line[j..];
    ThreeParts(line[..i], line[i..j], line[j..]);
  }

  predicate NoneBegins(segments: seq<string>, parm: string) {
    forall s :: s in segments ==> !(parm <= s)
  }

  /** A parameter occurs in a line exactly if a segment of the line begins with it. */
  lemma {:induction false} OccursInSegment(line: string, parm: string)
    requires IsParm(parm)
    ensures Absent(line, parm) <==> NoneBegins(Segments(line), parm)
    decreases |line|
  {
    match Find(line, parm)
    case Some(i) =>
      OccurrenceBegins(line, parm, i);
      assert line[i..NextParam(line, i + 1)] in Segments(line);
    case None =>
      if line != "" {
        var j := NextParam(line, 1);
        AbsentBehind(line, parm, j);
        OccursInSegment(line[j..], parm);
        NotFirst(line, parm, j);
        Unfolded(line);
      }
  }

  lemma NotFirst(line: string, parm: string, j: nat)
    requires Absent(line, parm) && j <= |line|
    ensures !(parm <= line[..j])
  {
    if parm <= line[..j] {
      PrefixOccurs(line, parm, j);
    }
  }

  lemma PrefixOccurs(line: string, parm: string, j: nat)
    requires j <= |line| && parm <= line[..j]
    ensures OccursAt(line, parm, 0)
  {
    assert line[..j][..|parm|] == line[0..0 + |parm|];
  }

  lemma AbsentBehind(line: string, parm: string, j: nat)
    requires Absent(line, parm) && j <= |line|
    ensures Absent(line[j..], parm)
  {
    forall i | 0 <= i ensures !OccursAt(line[j..], parm, i) {
      assert !OccursAt(line, parm, j + i);
      assert i + |parm| <= |line[j..]| ==> line[j..][i..i + |parm|] == line[j + i..j + i + |parm|];
    }
  }

  /** The frame of RemoveParm: the segments that begin with the parameter go, all the others stay
      as they are and in their order. */
  lemma {:induction false} RemovedSegments(line: string, parm: string)
    requires IsParm(parm)
    ensures Segments(Removed(line, parm)) == Lacking(Segments(line), parm)
    decreases |line|
  {
    hide Segments, NextParam, Lacking, Find;
    match Find(line, parm)
    case None =>
      OccursInSegment(line, parm);
      assert Absent(line, parm);
      NothingLacking(Segments(line), parm);
    case Some(i) =>
      OccurrenceBegins(line, parm, i);
      var j := NextParam(line, i + 1);
      RemovedSegments(CutAt(line, i), parm);
      SegmentsConcat(line[..i], line[j..]);
      MiddleLacking(Segments(line[..i]), line[i..j], Segments(line[j..]), parm);
  }

  lemma MiddleLacking(a: seq<string>, s: string, c: seq<string>, parm: string)
    requires parm <= s
    ensures Lacking(a + [s] + c, parm) == Lacking(a + c, parm)
  {
    LackingConcat(a + [s], c, parm);
    LackingConcat(a, [s], parm);
    LackingConcat(a, c, parm);
    assert [s][1..] == [];
  }

  lemma {:induction false} NothingLacking(segments: seq<string>, parm: string)
    requires NoneBegins(segments, parm)
    ensures Lacking(segments, parm) == segments
  {
    if segments != [] {
      assert segments[0] in segments && forall s :: s in segments[1..] ==> s in segments;
      NothingLacking(segments[1..], parm);
    }
  }

  /** Another parameter is still there exactly if a segment begins with it and not with the one
      that was removed: removing "-p" takes "-port" along. */
  lemma OthersStay(line: string, parm: string, other: string)
    requires IsParm(parm) && IsParm(other) && ' ' !in other
    ensures Absent(WithoutParm(line, parm), other) <==> forall s :: s in Segments(line) && other <= s ==> parm <= s
  {
    hide Segments;
    RemovedSegments(line, parm);
    OccursInSegment(Removed(line, parm), other);
    StrippedAbsent(Removed(line, parm), other);
  }

  lemma {:induction false} StrippedAbsent(line: string, word: string)
    requires word != "" && ' ' !in word
    ensures Absent(Stripped(line), word) <==> Absent(line, word)
    decreases |line|
  {
    if line != "" && line[|line| - 1] == ' ' {
      var less := line[..|line| - 1];
      StrippedAbsent(less, word);
      assert line == less + " ";
      if Absent(less, word) {
        AbsentWithSpace(less, word);
      } else {
        var i :| 0 <= i && OccursAt(less, word, i);
        assert line[i..i + |word|] == less[i..i + |word|];
        assert OccursAt(line, word, i);
      }
    }
  }

  lemma PrefixTakenAlong()
    ensures !Absent("-port 27015", "-port") && Absent(WithoutParm("-port 27015", "-p"), "-port")
  {
    var line := "-port 27015";
    Prefixes();
    OneSegment(line);
    hide *;
    assert line in [line] && forall s :: s in Segments(line) ==> s == line;
    OccursInSegment(line, "-port");
    OthersStay(line, "-p", "-port");
  }

  lemma Prefixes()
    ensures "-p" <= "-port 27015" && "-port" <= "-port 27015" && IsParm("-p") && IsParm("-port") && ' ' !in "-port"
    ensures forall k :: 1 <= k < |"-port 27015"| ==> !Sign("-port 27015"[k])
  {
  }

  // ----- the values of other parameters

  /** In s, which begins with a parameter, a value stands from behind the first space at e to end. */
  predicate HoldsValue(s: string, e: nat, end: nat) {
    && 1 <= e && e + 1 < end <= |s| && s[e] == ' '
    && (forall k :: 1 <= k < e ==> s[k] != ' ') && (forall k :: e < k < end ==> s[k] != ' ')
  }

  /** A segment of a line, between two cuts. */
  predicate IsSegment(s: string, behind: string) {
    s != "" && Sign(s[0]) && (forall k :: 1 <= k < |s| ==> !Sign(s[k])) && CutBefore(behind)
  }

  /** Setting a parameter leaves the value of another one alone, when no cut reaches it: the
      first segment that begins with the other one does not begin with the one that is set, and
      the value ends in the segment or with the line. */
  lemma ValueStays(a: string, s: string, x: string, parm: string, value: string, other: string, e: nat, end: nat)
    requires IsParm(parm) && IsParm(other) && ' ' !in other && IsSegment(s, x)
    requires Absent(a, other) && other <= s && !(parm <= s)
    requires HoldsValue(s, e, end) && if end < |s| then s[end] == ' ' else x == ""
    ensures ValueOf(a + s + x, other) == Some(s[e + 1..end])
    ensures ValueOf(WithParm(Some(a + s + x), parm, Some(value)), other) == Some(s[e + 1..end])
  {
    hide Find, NextSpace, Removed, Stripped, Absent, ValueOf, WithoutParm;
    var line := a + s + x;
    ValueAtWord(line, a, s, other, e, end);
    var a', x' := Removed(a, parm), Removed(x, parm);
    RemovedAround(a, s, x, parm);
    RemovedLacks(a, parm, other);
    var left := WithoutParm(line, parm);
    LeftIs(line, parm);
    NothingRemoved(parm);
    KeptBeforeSpaces(a', s, x', e, end);
    RemovedTwice(line, parm);
    ValueAtWord(left + " " + (parm + (" " + value)), a', s, other, e, end);
  }

  /** The other value stands at the end of the line, or in front of the parameter that is set. */
  lemma ValuesStayHere(value: string)
    ensures ValueOf(WithParm(Some("-a b"), "-c", Some(value)), "-a") == Some("b")
    ensures ValueOf(WithParm(Some("-a b -c d"), "-c", Some(value)), "-a") == Some("b")
  {
    ShortParms();
    hide *;
    ValueStays("", "-a b", "", "-c", value, "-a", 2, 4);
    ValueStays("", "-a b ", "-c d", "-c", value, "-a", 2, 4);
  }

  lemma ShortParms()
    ensures "" + "-a b" + "" == "-a b" && "" + "-a b " + "-c d" == "-a b -c d"
    ensures "-a b"[3..4] == "b" && "-a b "[3..4] == "b" && "-a b "[4] == ' '
    ensures IsParm("-c") && IsParm("-a") && ' ' !in "-a" && Absent("", "-a")
    ensures "-a" <= "-a b" && "-a" <= "-a b " && !("-c" <= "-a b") && !("-c" <= "-a b ")
    ensures IsSegment("-a b", "") && IsSegment("-a b ", "-c d") && HoldsValue("-a b", 2, 4) && HoldsValue("-a b ", 2, 4)
  {
    NothingAbsent("-a");
    assert "-a b"[1] != "-c"[1] && "-a b "[1] != "-c"[1];
  }

  lemma LeftIs(line: string, parm: string)
    requires parm != ""
    ensures WithoutParm(line, parm) == Stripped(Removed(line, parm))
  {
  }

  lemma NothingRemoved(parm: string)
    requires parm != ""
    ensures Removed("", parm) == ""
  {
    NothingAbsent(parm);
    assert Find("", parm) == None;
  }

  /** The value of a parameter that first occurs behind a. */
  lemma ValueAtWord(line: string, a: string, s: string, parm: string, e: nat, end: nat)
    requires IsParm(parm) && ' ' !in parm && Absent(a, parm) && s != "" && Sign(s[0]) && parm <= s
    requires HoldsValue(s, e, end) && a + s[..end] <= line
    requires |a| + end < |line| ==> line[|a| + end] == ' '
    ensures ValueOf(line, parm) == Some(s[e + 1..end])
  {
    hide Find, NextSpace;
    var n := |a|;
    assert forall k :: 0 <= k < end ==> (a + s[..end])[n + k] == line[n + k] == s[k];
    FoundFirst(line, a, s, parm, e, end);
    NextSpaceIs(line, n + 1, n + e);
    NextSpaceIs(line, n + e + 1, n + end);
    assert line[n + e + 1..n + end] == s[e + 1..end];
  }

  lemma FoundFirst(line: string, a: string, s: string, parm: string, e: nat, end: nat)
    requires IsParm(parm) && ' ' !in parm && Absent(a, parm) && s != "" && Sign(s[0]) && parm <= s
    requires HoldsValue(s, e, end) && a + s[..end] <= line
    ensures Find(line, parm) == Some(|a|)
  {
    var n := |a|;
    var w := a + s[..end];
    assert forall k :: 0 <= k < |w| ==> line[k] == w[k];
    NoSpaceBefore(s, parm, e);
    assert line[n..n + |parm|] == parm;
    assert OccursAt(line, parm, n);
    forall j | 0 <= j < n ensures !OccursAt(line, parm, j) {
      assert !OccursAt(a, parm, j);
      if j + |parm| <= n {
        assert line[j..j + |parm|] == a[j..j + |parm|];
      } else {
        NoSignInside(parm, n - j);
        assert n < |line| && j + |parm| <= |line| ==> line[j..j + |parm|][n - j] == line[n] == s[0];
      }
    }
  }

  lemma NoSpaceBefore(s: string, parm: string, e: nat)
    requires parm <= s && ' ' !in parm && e < |s| && s[e] == ' '
    ensures |parm| <= e
  {
    if e < |parm| {
      PrefixChar(s, parm, e);
    }
  }

  lemma PrefixChar(s: string, parm: string, k: nat)
    requires parm <= s && k < |parm|
    ensures parm[k] == s[k] && s[k] in parm
  {
  }

  /** Removal works before and behind a segment that stays. */
  lemma RemovedAround(a: string, s: string, x: string, parm: string)
    requires IsParm(parm) && IsSegment(s, x) && !(parm <= s)
    ensures Removed(a + s + x, parm) == Removed(a, parm) + s + Removed(x, parm)
  {
    hide Segments, Lacking, Removed, Join;
    ThreeParts(a, s, x);
    RemovedSegments(a + s + x, parm);
    RemovedSegments(a, parm);
    RemovedSegments(x, parm);
    LackingConcat(Segments(a) + [s], Segments(x), parm);
    LackingConcat(Segments(a), [s], parm);
    OneKept(s, parm);
    JoinSegments(Removed(a + s + x, parm));
    JoinSegments(Removed(a, parm));
    JoinSegments(Removed(x, parm));
    JoinParts(Lacking(Segments(a), parm), s, Lacking(Segments(x), parm));
  }

  lemma OneKept(s: string, parm: string)
    requires !(parm <= s)
    ensures Lacking([s], parm) == [s]
  {
    assert [s][1..] == [];
  }

  lemma JoinParts(a: seq<string>, s: string, c: seq<string>)
    ensures Join(a + [s] + c) == Join(a) + s + Join(c)
  {
    JoinConcat(a + [s], c);
    JoinConcat(a, [s]);
    assert [s][1..] == [] && s + "" == s;
  }

  lemma {:induction false} JoinConcat(a: seq<string>, b: seq<string>)
    ensures Join(a + b) == Join(a) + Join(b)
    decreases |a|
  {
    if a == [] {
      assert a + b == b;
    } else {
      JoinConcat(a[1..], b);
      assert (a + b)[1..] == a[1..] + b;
    }
  }

  /** Removal brings in no parameter that was not there. */
  lemma RemovedLacks(a: string, parm: string, other: string)
    requires IsParm(parm) && IsParm(other) && Absent(a, other)
    ensures Absent(Removed(a, parm), other)
  {
    hide Absent, Segments, Removed;
    OccursInSegment(a, other);
    RemovedSegments(a, parm);
    OccursInSegment(Removed(a, parm), other);
  }

  /** Stripping stops at the value, and what is appended begins with a space. */
  lemma KeptBeforeSpaces(a: string, s: string, x: string, e: nat, end: nat)
    requires HoldsValue(s, e, end) && if end < |s| then s[end] == ' ' else x == ""
    ensures var left := Stripped(a + s + x);
            && a + s[..end] <= left && (|a| + end < |left| ==> left[|a| + end] == ' ')
  {
    hide Stripped;
    var w := a + s[..end];
    assert a + s + x == w + (s[end..] + x);
    assert w[|w| - 1] == s[end - 1];
    StripsTo(w, s[end..] + x);
    assert end < |s| ==> (a + s + x)[|a| + end] == s[end];
  }

  lemma {:induction false} StripsTo(w: string, y: string)
    requires w != "" && w[|w| - 1] != ' '
    ensures w <= Stripped(w + y) <= w + y
    decreases |y|
  {
    if y != "" && y[|y| - 1] == ' ' {
      StripsTo(w, y[..|y| - 1]);
      assert (w + y)[..|w + y| - 1] == w + y[..|y| - 1];
    }
  }

  // ----- the class

  class CCommandLine {
    var m_pszCmdLine: array?<char>

    /** What a read behind the allocated memory finds. */
    const beyond: nat -> char

    constructor (beyond: nat -> char)
      ensures m_pszCmdLine == null && this.beyond == beyond
    {
      m_pszCmdLine := null;
      this.beyond := beyond;
    }

    /** There is no command line, or it is terminated. */
    ghost predicate Valid()
      reads this, m_pszCmdLine
    {
      m_pszCmdLine != null ==> Len(m_pszCmdLine[..]) < m_pszCmdLine.Length
    }

    ghost function Line(): Option<string>
      reads this, m_pszCmdLine
    {
      if m_pszCmdLine == null then None else Some(CStr(m_pszCmdLine[..]))
    }

    /** RemoveParm */
    method RemoveParm(pszParm: string)
      requires Valid() && NUL !in pszParm
      modifies m_pszCmdLine
      ensures Valid()
      ensures Line() == if old(Line()).None? then None else Some(WithoutParm(old(Line()).value, pszParm))
    {
      if m_pszCmdLine == null {
        return;
      }
      if pszParm == "" {
        return;
      }
      RemoveAll(m_pszCmdLine, pszParm);
      StripSpaces(m_pszCmdLine);
    }

    /** AppendParm */
    method AppendParm(pszParm: string, pszValues: Option<string>)
      requires Valid() && NUL !in pszParm && (pszValues.Some? ==> NUL !in pszValues.value)
      modifies this`m_pszCmdLine, m_pszCmdLine
      ensures Valid() && Line() == Some(Appended(old(Line()), pszParm, pszValues))
      ensures fresh(m_pszCmdLine)
    {
      var tail := pszParm + if pszValues.Some? then " " + pszValues.value else "";
      if m_pszCmdLine == null {
        m_pszCmdLine := NewString(tail);
        return;
      }
      RemoveParm(pszParm);
      var current := GetString(m_pszCmdLine);
      m_pszCmdLine := NewString(current + " " + tail);
    }

    /** SetParm */
    method SetParm(pszParm: string, pszValues: Option<string>)
      requires Valid() && NUL !in pszParm && (pszValues.Some? ==> NUL !in pszValues.value)
      modifies this`m_pszCmdLine, m_pszCmdLine
      ensures Valid() && Line() == Some(WithParm(old(Line()), pszParm, pszValues))
      ensures fresh(m_pszCmdLine)
    {
      RemoveParm(pszParm);
      AppendParm(pszParm, pszValues);
    }

    /** CheckParm with a place for the value. The word after the parameter's is copied, at most
        128 characters of it; when no word follows, the copy is of whatever memory lies behind. */
    method CheckParm(psz: string) returns (pret: Option<nat>, value: Option<string>)
      requires Valid() && (psz == "" && Line().Some? ==> Line().value != "")
      ensures pret == if Line().None? then None else Find(Line().value, psz)
      ensures value.Some? <==> pret.Some?
      ensures pret.Some? && ValueOf(Line().value, psz).Some? ==>
                value.value == AtMost128(ValueOf(Line().value, psz).value)
    {
      if m_pszCmdLine == null {
        return None, None;
      }
      hide NextSpace, Find, OccursAt, Len, ValueOf, AtMost128, CopyOf;
      var line := GetString(m_pszCmdLine);
      pret := Find(line, psz);
      if pret == None {
        return None, None;
      }
      var p1 := SkipWord(m_pszCmdLine, pret.value + 1);
      var sz := CopyWord(m_pszCmdLine, p1 + 1);
      ValueAt(line, psz, pret.value, p1);
      if p1 < |line| {
        CopiedWord(m_pszCmdLine[..], line, p1 + 1, sz);
      }
      value := Some(sz);
    }

    /** The copying loop of CheckParm. */
    method CopyWord(mem: array<char>, p2: nat) returns (sz: string)
      ensures |sz| <= 128 && CopyOf(mem[..], beyond, p2, sz)
      ensures |sz| < 128 ==> var c := CharAt(mem[..], beyond, p2 + |sz|); c == NUL || c == ' '
    {
      sz := "";
      while |sz| < 128
        invariant |sz| <= 128 && CopyOf(mem[..], beyond, p2, sz)
      {
        var c := CharAt(mem[..], beyond, p2 + |sz|);
        if c == NUL || c == ' ' {
          break;
        }
        sz := sz + [c];
      }
    }

    lemma CopiedWord(mem: seq<char>, line: string, p2: nat, sz: string)
      requires line == CStr(mem) && Len(mem) < |mem| && p2 <= |line| && |sz| <= 128
      requires CopyOf(mem, beyond, p2, sz)
      requires |sz| < 128 ==> var c := CharAt(mem, beyond, p2 + |sz|); c == NUL || c == ' '
      ensures sz == AtMost128(line[p2..NextSpace(line, p2)])
    {
      hide Len, NextSpace;
      assert |line| == Len(mem) && mem[|line|] == NUL;
      assert p2 + |sz| <= |line| by {
        if |sz| > |line| - p2 {
          CopiedChar(mem, beyond, p2, sz, |line| - p2);
        }
      }
      WordPrefix(line, p2, sz);
    }
  }

  /** What a read of the memory finds, also behind its end. */
  function CharAt(mem: seq<char>, beyond: nat -> char, i: nat): char {
    if i < |mem| then mem[i] else beyond(i)
  }

  /** sz was copied from p2 on and holds neither spaces nor terminators. */
  ghost predicate CopyOf(mem: seq<char>, beyond: nat -> char, p2: nat, sz: string) {
    forall k :: 0 <= k < |sz| ==> CharAt(mem, beyond, p2 + k) == sz[k] && sz[k] != ' ' && sz[k] != NUL
  }

  /** What fits in the static buffer that CheckParm copies to. */
  function AtMost128(word: string): (r: string)
    ensures r <= word && |r| <= 128 && (|word| > 128 ==> |r| == 128) && (|word| <= 128 ==> r == word)
  {
    if |word| <= 128 then word else word[..128]
  }

  lemma ValueAt(line: string, parm: string, i: nat, end: nat)
    requires Find(line, parm) == Some(i) && i < |line| && end == NextSpace(line, i + 1)
    ensures ValueOf(line, parm) == if end == |line| then None else Some(line[end + 1..NextSpace(line, end + 1)])
  {
    hide NextSpace, Find;
  }

  lemma CopiedChar(mem: seq<char>, beyond: nat -> char, p2: nat, sz: string, k: nat)
    requires CopyOf(mem, beyond, p2, sz) && k < |sz|
    ensures CharAt(mem, beyond, p2 + k) == sz[k] && sz[k] != ' ' && sz[k] != NUL
  {
  }

  lemma WordPrefix(line: string, p2: nat, sz: string)
    requires p2 + |sz| <= |line| && |sz| <= 128
    requires forall k :: 0 <= k < |sz| ==> sz[k] == line[p2 + k] && sz[k] != ' '
    requires |sz| < 128 ==> p2 + |sz| == |line| || line[p2 + |sz|] == ' '
    ensures sz == AtMost128(line[p2..NextSpace(line, p2)])
  {
    forall k | p2 <= k < p2 + |sz| ensures line[k] != ' ' {
      assert sz[k - p2] == line[p2 + (k - p2)];
    }
    NextSpaceFrom(line, p2, p2 + |sz|);
  }

  // ----- editing the memory

  /** The C string at the start of the memory. */
  method GetString(mem: array<char>) returns (s: string)
    ensures s == CStr(mem[..])
  {
    var n := 0;
    while n < mem.Length && mem[n] != NUL
      invariant n <= mem.Length && forall i :: 0 <= i < n ==> mem[i] != NUL
    {
      n := n + 1;
    }
    LenIs(mem[..], n);
    s := mem[..n];
  }

  /** New memory that holds a string and its terminator. */
  method NewString(s: string) returns (mem: array<char>)
    requires NUL !in s
    ensures fresh(mem) && Len(mem[..]) < mem.Length && CStr(mem[..]) == s
  {
    mem := new char[|s| + 1](i requires 0 <= i => if i < |s| then s[i] else NUL);
    assert forall i :: 0 <= i < |s| ==> mem[i] == s[i] != NUL;
    LenIs(mem[..], |s|);
  }

  /** The removal loop of RemoveParm. */
  method RemoveAll(mem: array<char>, parm: string)
    requires Len(mem[..]) < mem.Length && parm != ""
    modifies mem
    ensures Len(mem[..]) < mem.Length && CStr(mem[..]) == Removed(old(CStr(mem[..])), parm)
  {
    while mem[0] != NUL
      invariant Len(mem[..]) < mem.Length
      invariant Removed(CStr(mem[..]), parm) == Removed(old(CStr(mem[..])), parm)
      decreases Len(mem[..])
    {
      var line := GetString(mem);
      var found := Find(line, parm);
      if found == None {
        break;
      }
      CutOut(mem, line, found.value);
    }
  }

  /** One cut of RemoveParm: the rest is moved down, or the end is cleared. */
  method CutOut(mem: array<char>, line: string, found: nat)
    requires Len(mem[..]) < mem.Length && line == CStr(mem[..]) && found < |line|
    modifies mem
    ensures Len(mem[..]) < mem.Length && CStr(mem[..]) == CutAt(line, found)
  {
    hide Len, NextParam;
    var curlen := |line|;
    var pnextparam := SkipParam(mem, found + 1);
    assert mem[curlen] == NUL && forall k :: 0 <= k < curlen ==> mem[k] == line[k] && line[k] != NUL;
    if mem[pnextparam] != NUL {
      MoveDown(mem, found, pnextparam, curlen - pnextparam);
    } else {
      ClearRest(mem, found, pnextparam - found);
    }
    var r := CutAt(line, found);
    assert |r| == found + (curlen - pnextparam);
    assert forall k :: 0 <= k < |r| ==> mem[k] == r[k];
    LenIs(mem[..], |r|);
  }

  method MoveDown(mem: array<char>, found: nat, pnextparam: nat, n: nat)
    requires found < pnextparam && pnextparam + n < mem.Length
    modifies mem
    ensures forall k :: 0 <= k < found ==> mem[k] == old(mem[k])
    ensures forall k :: found <= k < found + n ==> mem[k] == old(mem[k + (pnextparam - found)])
    ensures mem[found + n] == NUL
  {
    forall k | found <= k < found + n {
      mem[k] := mem[k + (pnextparam - found)];
    }
    mem[found + n] := NUL;
  }

  method ClearRest(mem: array<char>, found: nat, n: nat)
    requires found + n <= mem.Length
    modifies mem
    ensures forall k :: 0 <= k < mem.Length ==> mem[k] == if found <= k < found + n then NUL else old(mem[k])
  {
    forall k | found <= k < found + n {
      mem[k] := NUL;
    }
  }

  /** Steps over the rest of a word. */
  method SkipWord(mem: array<char>, i: nat) returns (p1: nat)
    requires Len(mem[..]) < mem.Length && i <= Len(mem[..])
    ensures p1 == NextSpace(CStr(mem[..]), i)
  {
    ghost var line := CStr(mem[..]);
    p1 := i;
    while mem[p1] != ' ' && mem[p1] != NUL
      invariant i <= p1 <= |line|
      invariant forall k :: i <= k < p1 ==> line[k] != ' '
      decreases |line| - p1
    {
      p1 := p1 + 1;
    }
    NextSpaceIs(line, i, p1);
  }

  /** Steps over the rest of a parameter and the values attached to it. */
  method SkipParam(mem: array<char>, i: nat) returns (p: nat)
    requires Len(mem[..]) < mem.Length && i <= Len(mem[..])
    ensures p == NextParam(CStr(mem[..]), i)
  {
    ghost var line := CStr(mem[..]);
    p := i;
    while mem[p] != NUL && mem[p] != '-' && mem[p] != '+'
      invariant i <= p <= |line|
      invariant NextParam(line, p) == NextParam(line, i)
      decreases |line| - p
    {
      p := p + 1;
    }
  }

  /** The trailing-space loop of RemoveParm. */
  method StripSpaces(mem: array<char>)
    requires Len(mem[..]) < mem.Length
    modifies mem
    ensures Len(mem[..]) < mem.Length && CStr(mem[..]) == Stripped(old(CStr(mem[..])))
  {
    while true
      invariant Len(mem[..]) < mem.Length
      invariant Stripped(CStr(mem[..])) == Stripped(old(CStr(mem[..])))
      decreases Len(mem[..])
    {
      var line := GetString(mem);
      var curpos := |line|;
      if curpos == 0 || mem[curpos - 1] != ' ' {
        break;
      }
      mem[curpos - 1] := NUL;
      LenIs(mem[..], curpos - 1);
      assert mem[..curpos - 1] == line[..curpos - 1];
    }
  }
}
