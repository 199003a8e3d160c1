/** The symbol annotator: where each extent ends, and the annotated output. */
module SymbolExtents {
  import opened Wrappers

  datatype Cpp = If | Elif | Endif   // Elif stands for #elif and #else

  /** A source line as the annotator's patterns see it. */
  datatype Line = Line(
    cpp: Option<Cpp>,        // an #if-family directive
    blank: bool,             // nothing but space
    comment: bool,           // starts with //
    align: bool,             // an alignment directive
    code: bool,              // something is left once the comment is removed
    section: Option<bool>,   // a section directive; whether it is a data section
    global: Option<string>,  // .global name
    macro: bool,             // an opener from an earlier run
    symbol: Option<string>,  // a label, with its name
    rest: bool,              // code after the label
    tail: bool)              // anything after the label
  {
    /** What the patterns guarantee of one another. */
    predicate Valid() {
      && (cpp.Some? ==> !blank && !comment && !align && symbol.None? && global.None?)
      && (symbol.Some? ==> code && global.None? && !blank && !comment && !align)
    }
  }

  ghost predicate ValidLines(lines: seq<Line>) {
    forall i | 0 <= i < |lines| :: lines[i].Valid()
  }

  // ---- Conditional regions -------------------------------------------------

  /** The enclosing conditionals, innermost last, as (id, branch); and how many
      conditionals have been opened so far. */
  datatype Cond = Cond(stack: seq<(nat, nat)>, count: nat)

  function Enter(c: Cond, line: Line): Cond {
    match line.cpp
    case None => c
    case Some(If) => Cond(c.stack + [(c.count + 1, 0)], c.count + 1)
    case Some(Elif) =>
      if c.stack == [] then c
      else
        var (id, branch) := c.stack[|c.stack| - 1];
        c.(stack := c.stack[|c.stack| - 1 := (id, branch + 1)])
    case Some(Endif) => if c.stack == [] then c else c.(stack := c.stack[..|c.stack| - 1])
  }

  function CondAt(lines: seq<Line>, i: nat): Cond
    requires i <= |lines|
  {
    if i == 0 then Cond([], 0) else Enter(CondAt(lines, i - 1), lines[i - 1])
  }

  /** How many conditionals are open at line i, by the directives alone. */
  function Depth(lines: seq<Line>, i: nat): nat
    requires i <= |lines|
  {
    if i == 0 then 0
    else
      var d := Depth(lines, i - 1);
      if lines[i - 1].cpp == Some(If) then d + 1
      else if lines[i - 1].cpp == Some(Endif) && d > 0 then d - 1
      else d
  }

  /** Line k closes no conditional around a, and does not move the innermost
      one on to another branch. */
  ghost predicate Keeps(lines: seq<Line>, a: nat, k: nat)
    requires a <= |lines| && k < |lines|
  {
    && Depth(lines, k + 1) >= Depth(lines, a)
    && (lines[k].cpp == Some(Elif) ==> Depth(lines, k) > Depth(lines, a))
  }

  ghost predicate BranchLasts(lines: seq<Line>, a: nat, b: nat)
    requires a <= b <= |lines|
  {
    forall k: nat | a <= k < b :: Keeps(lines, a, k)
  }

  /** Lines a and b are in one branch of the conditionals: outside all of them,
      or at the same depth in a branch that lasts. */
  ghost predicate SameBranch(lines: seq<Line>, a: nat, b: nat) {
    && a <= b <= |lines| && Depth(lines, a) == Depth(lines, b)
    && (Depth(lines, a) > 0 ==> BranchLasts(lines, a, b))
  }

  lemma {:induction false} DepthIsStack(lines: seq<Line>, i: nat)
    requires i <= |lines|
    ensures |CondAt(lines, i).stack| == Depth(lines, i) && Numbered(CondAt(lines, i))
  {
    if i > 0 {
      DepthIsStack(lines, i - 1);
      EnterNumbered(CondAt(lines, i - 1), lines[i - 1]);
    }
  }

  /** The open conditionals are among those counted. */
  ghost predicate Numbered(c: Cond) {
    forall k | 0 <= k < |c.stack| :: c.stack[k].0 <= c.count
  }

  lemma EnterNumbered(c: Cond, line: Line)
    requires Numbered(c)
    ensures Numbered(Enter(c, line))
  {
  }

  lemma {:induction false} CountGrows(lines: seq<Line>, a: nat, b: nat)
    requires a <= b <= |lines|
    ensures CondAt(lines, a).count <= CondAt(lines, b).count
    decreases b
  {
    if a < b {
      CountGrows(lines, a, b - 1);
    }
  }

  /** While the branch lasts, the stack of line a stays at the bottom. */
  lemma {:induction false} LastingStack(lines: seq<Line>, a: nat, b: nat)
    requires a <= b <= |lines| && Depth(lines, a) > 0 && BranchLasts(lines, a, b)
    ensures Depth(lines, a) <= |CondAt(lines, b).stack|
    ensures CondAt(lines, b).stack[..Depth(lines, a)] == CondAt(lines, a).stack
    decreases b
  {
    DepthIsStack(lines, a);
    if a < b {
      LastingStack(lines, a, b - 1);
      DepthIsStack(lines, b - 1);
      DepthIsStack(lines, b);
      assert Keeps(lines, a, b - 1);
      KeepsStack(CondAt(lines, b - 1), lines[b - 1], Depth(lines, a));
    }
  }

  lemma KeepsStack(c: Cond, line: Line, d: nat)
    requires 0 < d <= |c.stack| && d <= |Enter(c, line).stack| && (line.cpp == Some(Elif) ==> |c.stack| > d)
    ensures Enter(c, line).stack[..d] == c.stack[..d]
  {
  }

  /** The innermost conditional of line a is closed or in another branch. */
  ghost predicate Left(at: Cond, now: Cond) {
    at.stack != [] && Numbered(at) && var d := |at.stack| - 1;
      |now.stack| <= d || now.stack[d].0 > at.count || now.stack[d].1 > at.stack[d].1
  }

  lemma LeftStays(at: Cond, now: Cond, line: Line)
    requires Left(at, now) && at.count <= now.count
    ensures Left(at, Enter(now, line))
  {
  }

  lemma LeftNow(at: Cond, now: Cond, line: Line)
    requires at.stack != [] && Numbered(at) && |at.stack| <= |now.stack| && now.stack[..|at.stack|] == at.stack
    requires |Enter(now, line).stack| < |at.stack| || (line.cpp == Some(Elif) && |now.stack| == |at.stack|)
    ensures Left(at, Enter(now, line))
  {
    var d := |at.stack| - 1;
    assert now.stack[d] == now.stack[..|at.stack|][d];
  }

  /** Once the branch has ended, it never comes back. */
  lemma {:induction false} BranchLeft(lines: seq<Line>, a: nat, b: nat)
    requires a <= b <= |lines| && Depth(lines, a) > 0 && !BranchLasts(lines, a, b)
    ensures Left(CondAt(lines, a), CondAt(lines, b))
    decreases b
  {
    DepthIsStack(lines, a);
    if BranchLasts(lines, a, b - 1) {
      LastingStack(lines, a, b - 1);
      DepthIsStack(lines, b - 1);
      DepthIsStack(lines, b);
      assert !Keeps(lines, a, b - 1);
      LeftNow(CondAt(lines, a), CondAt(lines, b - 1), lines[b - 1]);
    } else {
      CountGrows(lines, a, b - 1);
      BranchLeft(lines, a, b - 1);
      LeftStays(CondAt(lines, a), CondAt(lines, b - 1), lines[b - 1]);
    }
  }

  /** Two lines have the same stack exactly when the directives put them in one
      branch. */
  lemma StackIsBranch(lines: seq<Line>, a: nat, b: nat)
    requires a <= b <= |lines|
    ensures CondAt(lines, a).stack == CondAt(lines, b).stack <==> SameBranch(lines, a, b)
  {
    DepthIsStack(lines, a);
    DepthIsStack(lines, b);
    if Depth(lines, a) > 0 && Depth(lines, a) == Depth(lines, b) {
      if BranchLasts(lines, a, b) {
        LastingStack(lines, a, b);
      } else {
        BranchLeft(lines, a, b);
      }
    }
  }

  /** Push, advance or pop the innermost conditional. */
  method UpdateStack(stack0: seq<(nat, nat)>, count0: nat, line: Line) returns (stack: seq<(nat, nat)>, count: nat)
    ensures Cond(stack, count) == Enter(Cond(stack0, count0), line)
  {
    stack, count := stack0, count0;
    match line.cpp
    case None =>
    case Some(If) =>
      count := count + 1;
      stack := stack + [(count, 0)];
    case Some(Elif) =>
      if stack != [] {
        var (id, branch) := stack[|stack| - 1];
        stack := stack[|stack| - 1 := (id, branch + 1)];
      }
    case Some(Endif) =>
      if stack != [] {
        stack := stack[..|stack| - 1];
      }
  }

  /** cond_regions */
  method CondRegions(lines: seq<Line>) returns (enter: seq<seq<(nat, nat)>>)
    ensures |enter| == |lines| + 1 && Entered(lines, enter)
    ensures forall a: nat, b: nat | a <= b <= |lines| :: enter[a] == enter[b] <==> SameBranch(lines, a, b)
  {
    enter := [];
    var stack, count: nat := [], 0;
    for i := 0 to |lines|
      invariant Cond(stack, count) == CondAt(lines, i) && |enter| == i && Entered(lines, enter)
    {
      enter := enter + [stack];
      stack, count := UpdateStack(stack, count, lines[i]);
    }
    enter := enter + [stack];
    forall a: nat, b: nat | a <= b <= |lines|
      ensures enter[a] == enter[b] <==> SameBranch(lines, a, b)
    {
      StackIsBranch(lines, a, b);
    }
  }

  ghost predicate Entered(lines: seq<Line>, enter: seq<seq<(nat, nat)>>) {
    |enter| <= |lines| + 1 && forall i: nat | i < |enter| :: enter[i] == CondAt(lines, i).stack
  }

  lemma {:induction false} SameCond(lines: seq<Line>, a: nat, b: nat)
    requires a <= b <= |lines| && forall k | a <= k < b :: lines[k].cpp.None?
    ensures CondAt(lines, a) == CondAt(lines, b)
    decreases b
  {
    if a < b {
      SameCond(lines, a, b - 1);
    }
  }

  // ---- Extents -------------------------------------------------------------

  /** A line that begins the next thing. */
  predicate Starts(line: Line, isData: bool, globals: set<string>) {
    line.code && (line.section.Some? || line.global.Some? || line.macro
                  || (line.symbol.Some? && (isData || line.symbol.value in globals)))
  }

  predicate Trivia(line: Line) {
    line.blank || line.align
  }

  /** Everything from a up to b is blank, alignment or comment. */
  ghost predicate Padding(lines: seq<Line>, a: int, b: int) {
    forall k | 0 <= a <= k < b < |lines| + 1 :: Trivia(lines[k]) || lines[k].comment
  }

  method TrimBlanks(lines: seq<Line>, start: nat, from: nat) returns (k: nat)
    requires start < from <= |lines|
    ensures start < k <= from && Padding(lines, k, from)
    ensures k > start + 1 ==> !Trivia(lines[k - 1])
    ensures k < from ==> Trivia(lines[k])
  {
    k := from;
    while k > start + 1 && Trivia(lines[k - 1])
      invariant start < k <= from && Padding(lines, k, from)
      invariant k < from ==> Trivia(lines[k])
    {
      k := k - 1;
    }
  }

  /** Line scanned is where the next thing begins. */
  ghost predicate NextStart(lines: seq<Line>, start: nat, scanned: nat, isData: bool, globals: set<string>) {
    && start < scanned <= |lines|
    && (forall j | start < j < scanned :: !Starts(lines[j], isData, globals))
    && (scanned < |lines| ==> Starts(lines[scanned], isData, globals))
  }

  /** Line branch is the last point up to scanned in the branch of start. */
  ghost predicate LastInBranch(lines: seq<Line>, start: nat, branch: nat, scanned: nat) {
    && start < branch <= scanned <= |lines|
    && SameBranch(lines, start, branch)
    && forall k: nat | branch < k <= scanned :: !SameBranch(lines, start, k)
  }

  /** Lines block..e are comments, and attached to the line of code before. */
  ghost predicate AttachedFrom(lines: seq<Line>, start: nat, block: nat, e: nat) {
    && start < block <= e <= |lines|
    && !lines[block - 1].blank && (block - 1 == start || !lines[block - 1].comment)
    && forall k | block <= k < e :: lines[k].comment
  }

  /** The comments that end at e, if any, are attached to a line of code. */
  ghost predicate Attached(lines: seq<Line>, start: nat, e: nat) {
    exists block: nat :: AttachedFrom(lines, start, block, e)
  }

  /** Everything from e to branch is padding, and it begins with a blank or an
      alignment line. */
  ghost predicate PaddedTo(lines: seq<Line>, e: nat, branch: nat) {
    e <= branch <= |lines| && Padding(lines, e, branch) && (e < branch ==> Trivia(lines[e]))
  }

  /** The extent that begins at start ends before line e: at the next thing, or
      where its branch of the conditionals ends, less the padding before. */
  ghost predicate IsExtent(lines: seq<Line>, start: nat, e: nat, isData: bool, globals: set<string>) {
    && start < e <= |lines| && SameBranch(lines, start, e)
    && (e > start + 1 ==> !Trivia(lines[e - 1])) && Attached(lines, start, e)
    && exists branch, scanned :: NextStart(lines, start, scanned, isData, globals)
         && LastInBranch(lines, start, branch, scanned) && PaddedTo(lines, e, branch)
  }

  /** Where the next thing begins, by the fields of the line alone. */
  ghost predicate BeginsNext(line: Line, isData: bool, globals: set<string>) {
    && line.code
    && (line.section.Some? || line.global.Some? || line.macro || (line.symbol.Some? && isData)
        || exists name | name in globals :: line.symbol == Some(name))
  }

  /** Inside an extent nothing else begins, and it ends in neither a blank nor an
      alignment line. What follows, up to the next beginning, the end of its
      branch or the end of the file, is blank, alignment or comment. */
  lemma ExtentShape(lines: seq<Line>, start: nat, e: nat, isData: bool, globals: set<string>)
    requires IsExtent(lines, start, e, isData, globals)
    ensures forall k | start < k < e :: !BeginsNext(lines[k], isData, globals)
    ensures e > start + 1 ==> !lines[e - 1].blank && !lines[e - 1].align
    ensures exists stop :: RestIsPadding(lines, start, e, stop, isData, globals)
  {
    var branch: nat, scanned: nat :| NextStart(lines, start, scanned, isData, globals)
      && LastInBranch(lines, start, branch, scanned) && PaddedTo(lines, e, branch);
    assert e <= branch <= scanned <= |lines|;
    forall k | start < k < e
      ensures !BeginsNext(lines[k], isData, globals)
    {
      assert !Starts(lines[k], isData, globals);
    }
    StopsThere(lines, start, branch, scanned, isData, globals);
    assert RestIsPadding(lines, start, e, branch, isData, globals);
  }

  /** From e to stop there is only padding, and stop is where the next thing
      begins, the branch of start ends, or the file does. */
  ghost predicate RestIsPadding(
    lines: seq<Line>, start: nat, e: nat, stop: nat, isData: bool, globals: set<string>) {
    && e <= stop <= |lines|
    && (stop == |lines| || BeginsNext(lines[stop], isData, globals) || !SameBranch(lines, start, stop + 1))
    && forall k | e <= k < stop :: lines[k].blank || lines[k].align || lines[k].comment
  }

  lemma StopsThere(lines: seq<Line>, start: nat, branch: nat, scanned: nat, isData: bool, globals: set<string>)
    requires NextStart(lines, start, scanned, isData, globals) && LastInBranch(lines, start, branch, scanned)
    ensures branch == |lines| || BeginsNext(lines[branch], isData, globals) || !SameBranch(lines, start, branch + 1)
  {
    if branch == scanned < |lines| {
      assert Starts(lines[branch], isData, globals);
    }
  }

  method ScanBody(lines: seq<Line>, start: nat, isData: bool, globals: set<string>) returns (stop: nat)
    requires start < |lines|
    ensures NextStart(lines, start, stop, isData, globals)
  {
    stop := |lines|;
    for j := start + 1 to |lines|
      invariant stop == |lines| && forall k | start < k < j :: !Starts(lines[k], isData, globals)
    {
      if Starts(lines[j], isData, globals) {
        stop := j;
        break;
      }
    }
  }

  lemma PaddingKeepsCond(lines: seq<Line>, a: nat, b: nat)
    requires ValidLines(lines) && a <= b <= |lines| && Padding(lines, a, b)
    ensures CondAt(lines, a) == CondAt(lines, b)
  {
    forall k | a <= k < b
      ensures lines[k].cpp.None?
    {
      assert lines[k].Valid();
    }
    SameCond(lines, a, b);
  }

  /** The same for a caller that gives no table of conditionals. */
  ghost predicate IsBody(lines: seq<Line>, start: nat, e: nat, isData: bool, globals: set<string>) {
    && start < e <= |lines| && (e > start + 1 ==> !Trivia(lines[e - 1])) && Attached(lines, start, e)
    && exists scanned :: NextStart(lines, start, scanned, isData, globals) && PaddedTo(lines, e, scanned)
  }

  /** Step back to the branch of the conditionals that start is in. */
  method BackToBranch(lines: seq<Line>, start: nat, scanned: nat, enter: seq<seq<(nat, nat)>>) returns (stop: nat)
    requires start < scanned <= |lines| == |enter| - 1 && Entered(lines, enter) && lines[start].cpp.None?
    ensures LastInBranch(lines, start, stop, scanned)
  {
    assert CondAt(lines, start + 1) == CondAt(lines, start);
    stop := scanned;
    while stop > start + 1 && enter[stop] != enter[start]
      invariant start < stop <= scanned
      invariant forall k: nat | stop < k <= scanned :: !SameBranch(lines, start, k)
    {
      StackIsBranch(lines, start, stop);
      stop := stop - 1;
    }
    StackIsBranch(lines, start, stop);
  }

  /** body_end; enter is left out by a caller with no conditionals. */
  method BodyEnd(lines: seq<Line>, start: nat, isData: bool, globals: set<string>,
                 enter: Option<seq<seq<(nat, nat)>>>) returns (stop: nat)
    requires ValidLines(lines) && start < |lines| && lines[start].symbol.Some?
    requires enter.Some? ==> |enter.value| == |lines| + 1 && Entered(lines, enter.value)
    ensures if enter.Some? then IsExtent(lines, start, stop, isData, globals)
            else IsBody(lines, start, stop, isData, globals)
  {
    var scanned := ScanBody(lines, start, isData, globals);
    assert lines[start].Valid();
    var branch := scanned;
    if enter.Some? {
      branch := BackToBranch(lines, start, scanned, enter.value);
    }
    stop := TrimTail(lines, start, branch);
    PaddingKeepsCond(lines, stop, branch);
    StackIsBranch(lines, start, branch);
    StackIsBranch(lines, start, stop);
  }

  /** The trailing blanks, alignment and detached comment blocks. */
  method TrimTail(lines: seq<Line>, start: nat, from: nat) returns (stop: nat)
    requires start < from <= |lines| && !lines[start].blank
    ensures start < stop <= from && PaddedTo(lines, stop, from) && Attached(lines, start, stop)
    ensures stop > start + 1 ==> !Trivia(lines[stop - 1])
  {
    stop := TrimBlanks(lines, start, from);
    while stop > start + 1 && lines[stop - 1].comment
      invariant start < stop <= from && PaddedTo(lines, stop, from)
      invariant stop > start + 1 ==> !Trivia(lines[stop - 1])
      decreases stop
    {
      var block := stop;
      while block - 1 > start && lines[block - 1].comment
        invariant start < block <= stop && forall k | block <= k < stop :: lines[k].comment
        invariant block == stop ==> lines[block - 1].comment
      {
        block := block - 1;
      }
      if !lines[block - 1].blank {
        assert AttachedFrom(lines, start, block, stop);
        return;
      }
      stop := TrimBlanks(lines, start, block);
    }
    assert AttachedFrom(lines, start, stop, stop);
  }

  // ---- Annotated output ----------------------------------------------------

  /** A line of the output; i is an index into the input, and of a directive
      the line of the label it is about. */
  datatype Item =
    | Kept(i: nat)
    | Opened(i: nat, data: bool)
    | Trailing(i: nat)
    | Closed(i: nat, data: bool)

  /** Reading the output from the top: outside every extent; inside one, with
      the conditionals there when it opened; or after a misplaced directive. */
  datatype Reader =
    | Outside(cond: Cond)
    | Inside(cond: Cond, i: nat, data: bool, openedIn: seq<(nat, nat)>)
    | Misplaced

  function Read(r: Reader, lines: seq<Line>, item: Item): Reader {
    match item
    case Kept(i) =>
      if r.Misplaced? || i >= |lines| then Misplaced else r.(cond := Enter(r.cond, lines[i]))
    case Trailing(_) => r
    case Opened(i, data) => if r.Outside? then Inside(r.cond, i, data, r.cond.stack) else Misplaced
    case Closed(i, data) =>
      if r.Inside? && r.i == i && r.data == data && r.cond.stack == r.openedIn then Outside(r.cond) else Misplaced
  }

  function ReadAll(lines: seq<Line>, out: seq<Item>): Reader {
    if out == [] then Outside(Cond([], 0))
    else Read(ReadAll(lines, out[..|out| - 1]), lines, out[|out| - 1])
  }

  lemma ReadSnoc(lines: seq<Line>, out: seq<Item>, item: Item)
    ensures ReadAll(lines, out + [item]) == Read(ReadAll(lines, out), lines, item)
  {
    assert (out + [item])[..|out|] == out;
  }

  /** The input lines the output shows, in output order. */
  function Sources(out: seq<Item>): seq<nat> {
    if out == [] then []
    else
      Sources(out[..|out| - 1])
      + match out[|out| - 1]
        case Kept(i) => [i]
        case Opened(i, _) => [i]
        case _ => []
  }

  lemma SourcesSnoc(out: seq<Item>, item: Item)
    ensures Sources(out + [item])
         == Sources(out) + match item case Kept(i) => [i] case Opened(i, _) => [i] case _ => []
  {
    assert (out + [item])[..|out|] == out;
  }

  /** A .global line for a symbol whose opener declares it now. */
  predicate Dropped(line: Line, gone: set<string>) {
    line.global.Some? && line.global.value in gone
  }

  /** The input lines below i that must survive, in order. */
  function Survivors(lines: seq<Line>, gone: set<string>, i: nat): seq<nat>
    requires i <= |lines|
  {
    if i == 0 then []
    else Survivors(lines, gone, i - 1) + if Dropped(lines[i - 1], gone) then [] else [i - 1]
  }

  // ---- Planning ------------------------------------------------------------

  /** For each converted label line, where its extent ends and whether it is
      data. */
  type Plan = map<nat, (nat, bool)>

  ghost predicate PlanFits(lines: seq<Line>, plan: Plan, globals: set<string>) {
    forall i: nat | i in plan ::
      && i < |lines| && lines[i].symbol.Some? && lines[i].symbol.value in globals
      && IsExtent(lines, i, plan[i].0, plan[i].1, globals)
  }

  lemma ExtentStops(lines: seq<Line>, a: nat, e: nat, isData: bool, globals: set<string>, b: nat)
    requires IsExtent(lines, a, e, isData, globals) && a < b < |lines| && Starts(lines[b], isData, globals)
    ensures e <= b
  {
  }

  /** Extents do not overlap: each ends at or before the next global label. */
  lemma Disjoint(lines: seq<Line>, plan: Plan, globals: set<string>, a: nat, b: nat)
    requires ValidLines(lines) && PlanFits(lines, plan, globals) && a in plan && a < b < |lines|
    requires lines[b].symbol.Some? && lines[b].symbol.value in globals
    ensures plan[a].0 <= b
  {
    assert lines[b].Valid();
    assert Starts(lines[b], plan[a].1, globals);
    ExtentStops(lines, a, plan[a].0, plan[a].1, globals, b);
  }

  /** closes is the plan indexed by where extents end. */
  ghost predicate ClosesPlan(plan: Plan, closes: map<nat, seq<nat>>) {
    && (forall i: nat | i in plan :: plan[i].0 in closes && closes[plan[i].0] == [i])
    && forall e: nat | e in closes :: |closes[e]| == 1 && closes[e][0] in plan && plan[closes[e][0]].0 == e
  }

  /** section_kinds: the section state after line i. */
  function DataAt(lines: seq<Line>, inData: bool, i: nat): bool
    requires i < |lines|
  {
    if lines[i].section.Some? then lines[i].section.value else if i == 0 then inData else DataAt(lines, inData, i - 1)
  }

  /** The state after line i is that of the last section directive up to it. */
  lemma {:induction false} LastSection(lines: seq<Line>, inData: bool, i: nat)
    requires i < |lines|
    ensures DataAt(lines, inData, i) <==>
      (exists k :: 0 <= k <= i && lines[k].section == Some(true) && forall j | k < j <= i :: lines[j].section.None?)
      || (inData && forall k | 0 <= k <= i :: lines[k].section.None?)
  {
    if lines[i].section.None? && i > 0 {
      LastSection(lines, inData, i - 1);
    }
  }

  method SectionKinds(lines: seq<Line>, inData: bool) returns (kinds: seq<bool>)
    ensures |kinds| == |lines| && forall i: nat | i < |lines| :: kinds[i] == DataAt(lines, inData, i)
  {
    kinds := [];
    var data := inData;
    for i := 0 to |lines|
      invariant |kinds| == i && forall k: nat | k < i :: kinds[k] == DataAt(lines, inData, k)
      invariant data == if i == 0 then inData else DataAt(lines, inData, i - 1)
    {
      if lines[i].section.Some? {
        data := lines[i].section.value;
      }
      kinds := kinds + [data];
    }
  }

  /** The labels below i that were planned, against the symbols converted. */
  ghost predicate Planned(
    lines: seq<Line>, inData: bool, globals: set<string>, plan: Plan, closes: map<nat, seq<nat>>,
    converted: set<string>, i: nat)
    requires i <= |lines|
  {
    && PlanFits(lines, plan, globals) && ClosesPlan(plan, closes) && Converts(lines, plan, converted)
    && PlanBelow(lines, inData, plan, i) && AllPlanned(lines, inData, globals, plan, converted, i)
  }

  /** A global label below i that is not planned is a repeat or has no body. */
  ghost predicate AllPlanned(
    lines: seq<Line>, inData: bool, globals: set<string>, plan: Plan, converted: set<string>, i: nat)
    requires i <= |lines|
  {
    forall a: nat | a < i && a !in plan :: Passed(lines, inData, globals, converted, a)
  }

  /** Line a is no global label, or a repeat, or has no body. */
  ghost predicate Passed(lines: seq<Line>, inData: bool, globals: set<string>, converted: set<string>, a: nat)
    requires a < |lines|
  {
    || lines[a].symbol.None? || lines[a].symbol.value !in globals || lines[a].symbol.value in converted
    || (!lines[a].rest && IsExtent(lines, a, a + 1, DataAt(lines, inData, a), globals))
  }

  lemma AllPlannedOne(
    lines: seq<Line>, inData: bool, globals: set<string>, plan: Plan, converted: set<string>, i: nat, to: (nat, bool),
    name: string)
    requires i < |lines| && AllPlanned(lines, inData, globals, plan, converted, i)
    ensures AllPlanned(lines, inData, globals, plan[i := to], converted + {name}, i + 1)
  {
    forall a: nat | a < i + 1 && a !in plan[i := to]
      ensures Passed(lines, inData, globals, converted + {name}, a)
    {
      assert Passed(lines, inData, globals, converted, a);
    }
  }

  /** Planned labels are below i, in the section recorded, and not empty. */
  ghost predicate PlanBelow(lines: seq<Line>, inData: bool, plan: Plan, i: nat)
    requires i <= |lines|
  {
    forall a | a in plan ::
      a < i && plan[a].1 == DataAt(lines, inData, a) && (plan[a].0 > a + 1 || lines[a].rest)
  }

  lemma BelowOne(lines: seq<Line>, inData: bool, plan: Plan, i: nat, end: nat)
    requires i < |lines| && PlanBelow(lines, inData, plan, i) && (end > i + 1 || lines[i].rest)
    ensures i !in plan && PlanBelow(lines, inData, plan[i := (end, DataAt(lines, inData, i))], i + 1)
  {
  }

  function Appended(closes: map<nat, seq<nat>>, end: nat, i: nat): map<nat, seq<nat>> {
    if end in closes then closes[end := closes[end] + [i]] else closes[end := [i]]
  }

  lemma NewEnd(lines: seq<Line>, globals: set<string>, plan: Plan, closes: map<nat, seq<nat>>, i: nat, end: nat)
    requires ValidLines(lines) && i < |lines| && PlanFits(lines, plan, globals) && ClosesPlan(plan, closes)
    requires lines[i].symbol.Some? && lines[i].symbol.value in globals && i < end
    requires forall a | a in plan :: a < i
    ensures end !in closes
  {
    if end in closes {
      Disjoint(lines, plan, globals, closes[end][0], i);
    }
  }

  lemma ClosesOne(plan: Plan, closes: map<nat, seq<nat>>, i: nat, end: nat, data: bool)
    requires ClosesPlan(plan, closes) && i !in plan && end !in closes
    ensures ClosesPlan(plan[i := (end, data)], Appended(closes, end, i))
  {
  }

  lemma FitsOne(lines: seq<Line>, plan: Plan, globals: set<string>, i: nat, to: (nat, bool))
    requires PlanFits(lines, plan, globals) && i < |lines| && i !in plan
    requires lines[i].symbol.Some? && lines[i].symbol.value in globals && IsExtent(lines, i, to.0, to.1, globals)
    ensures PlanFits(lines, plan[i := to], globals)
  {
  }

  /** Each planned symbol is converted, once, and nothing else is. */
  ghost predicate Converts(lines: seq<Line>, plan: Plan, converted: set<string>)
    requires forall a | a in plan :: a < |lines| && lines[a].symbol.Some?
  {
    && (forall a | a in plan :: lines[a].symbol.value in converted)
    && (forall a, b | a in plan && b in plan && a != b :: lines[a].symbol != lines[b].symbol)
    && forall name | name in converted :: exists a :: a in plan && lines[a].symbol == Some(name)
  }

  lemma ConvertsOne(lines: seq<Line>, plan: Plan, converted: set<string>, i: nat, to: (nat, bool))
    requires forall a | a in plan :: a < |lines| && lines[a].symbol.Some?
    requires Converts(lines, plan, converted) && i < |lines| && lines[i].symbol.Some?
    requires i !in plan && lines[i].symbol.value !in converted
    ensures Converts(lines, plan[i := to], converted + {lines[i].symbol.value})
  {
    var name, more := lines[i].symbol.value, plan[i := to];
    forall n | n in converted + {name}
      ensures exists a :: a in more && lines[a].symbol == Some(n)
    {
      if n != name {
        var a :| a in plan && lines[a].symbol == Some(n);
        assert a in more;
      } else {
        assert i in more;
      }
    }
  }

  lemma PlanOne(
    lines: seq<Line>, inData: bool, globals: set<string>, plan: Plan, closes: map<nat, seq<nat>>,
    converted: set<string>, i: nat, end: nat)
    requires ValidLines(lines) && i < |lines| && Planned(lines, inData, globals, plan, closes, converted, i)
    requires lines[i].symbol.Some? && lines[i].symbol.value in globals && lines[i].symbol.value !in converted
    requires IsExtent(lines, i, end, DataAt(lines, inData, i), globals) && (end > i + 1 || lines[i].rest)
    ensures Planned(lines, inData, globals, plan[i := (end, DataAt(lines, inData, i))], Appended(closes, end, i),
                    converted + {lines[i].symbol.value}, i + 1)
  {
    var data := DataAt(lines, inData, i);
    BelowOne(lines, inData, plan, i, end);
    NewEnd(lines, globals, plan, closes, i, end);
    FitsOne(lines, plan, globals, i, (end, data));
    ClosesOne(plan, closes, i, end, data);
    ConvertsOne(lines, plan, converted, i, (end, data));
    AllPlannedOne(lines, inData, globals, plan, converted, i, (end, data), lines[i].symbol.value);
  }

  /** Passing over a line that is no global label, a repeat, or has no body. */
  lemma PlanNone(
    lines: seq<Line>, inData: bool, globals: set<string>, plan: Plan, closes: map<nat, seq<nat>>,
    converted: set<string>, i: nat)
    requires i < |lines| && Planned(lines, inData, globals, plan, closes, converted, i)
    requires Passed(lines, inData, globals, converted, i)
    ensures Planned(lines, inData, globals, plan, closes, converted, i + 1)
  {
  }

  /** The planning loop of process. */
  method PlanExtents(lines: seq<Line>, inData: bool, globals: set<string>)
    returns (plan: Plan, closes: map<nat, seq<nat>>, converted: set<string>)
    requires ValidLines(lines)
    ensures Planned(lines, inData, globals, plan, closes, converted, |lines|)
  {
    var kinds := SectionKinds(lines, inData);
    var enter := CondRegions(lines);
    plan, closes, converted := map[], map[], {};
    for i := 0 to |lines|
      invariant Planned(lines, inData, globals, plan, closes, converted, i)
    {
      if lines[i].symbol.None? || lines[i].symbol.value !in globals || lines[i].symbol.value in converted {
        PlanNone(lines, inData, globals, plan, closes, converted, i);
        continue;
      }
      var end := BodyEnd(lines, i, kinds[i], globals, Some(enter));
      if end <= i + 1 && !lines[i].rest {
        PlanNone(lines, inData, globals, plan, closes, converted, i);
        continue;
      }
      PlanOne(lines, inData, globals, plan, closes, converted, i, end);
      plan := plan[i := (end, kinds[i])];
      closes := Appended(closes, end, i);
      converted := converted + {lines[i].symbol.value};
    }
  }

  // ---- Emitting ------------------------------------------------------------

  /** What emission relies on: planned extents start at label lines, end under
      the same conditionals, and do not overlap. */
  ghost predicate Separated(lines: seq<Line>, plan: Plan) {
    && (forall i: nat | i in plan ::
          && i < plan[i].0 <= |lines| && lines[i].symbol.Some?
          && CondAt(lines, plan[i].0).stack == CondAt(lines, i).stack)
    && forall a: nat, b: nat | a in plan && b in plan && a < b :: plan[a].0 <= b
  }

  lemma FitsSeparated(lines: seq<Line>, plan: Plan, globals: set<string>)
    requires ValidLines(lines) && PlanFits(lines, plan, globals)
    ensures Separated(lines, plan)
  {
    forall i: nat | i in plan
      ensures CondAt(lines, plan[i].0).stack == CondAt(lines, i).stack
    {
      StackIsBranch(lines, i, plan[i].0);
    }
    forall a: nat, b: nat | a in plan && b in plan && a < b
      ensures plan[a].0 <= b
    {
      Disjoint(lines, plan, globals, a, b);
    }
  }

  /** The closing directives due at line i. */
  function ClosersAt(plan: Plan, closes: map<nat, seq<nat>>, i: nat): seq<Item>
    requires ClosesPlan(plan, closes)
  {
    if i in closes then
      seq(|closes[i]|, k requires 0 <= k < |closes[i]| =>
        assert k == 0;
        Closed(closes[i][k], plan[closes[i][k]].1))
    else []
  }

  /** Line i itself: its opener and what followed the label, nothing if its
      .global is gone, or the line. */
  function LineAt(lines: seq<Line>, plan: Plan, gone: set<string>, i: nat): seq<Item>
    requires i < |lines|
  {
    if i in plan then [Opened(i, plan[i].1)] + if lines[i].tail then [Trailing(i)] else []
    else if Dropped(lines[i], gone) then []
    else [Kept(i)]
  }

  /** The output for the lines below i. */
  function Output(lines: seq<Line>, plan: Plan, closes: map<nat, seq<nat>>, gone: set<string>, i: nat): seq<Item>
    requires ClosesPlan(plan, closes) && i <= |lines|
  {
    if i == 0 then []
    else Output(lines, plan, closes, gone, i - 1) + ClosersAt(plan, closes, i - 1) + LineAt(lines, plan, gone, i - 1)
  }

  /** The emitting loop of process. */
  method Emit(lines: seq<Line>, plan: Plan, closes: map<nat, seq<nat>>, gone: set<string>) returns (out: seq<Item>)
    requires ClosesPlan(plan, closes)
    ensures out == Output(lines, plan, closes, gone, |lines|) + ClosersAt(plan, closes, |lines|)
  {
    out := [];
    for i := 0 to |lines|
      invariant out == Output(lines, plan, closes, gone, i)
    {
      out := out + ClosersAt(plan, closes, i);
      if i in plan {
        out := out + [Opened(i, plan[i].1)];
        if lines[i].tail {
          out := out + [Trailing(i)];
        }
        continue;
      }
      if lines[i].global.Some? && lines[i].global.value in gone {
        continue;
      }
      out := out + [Kept(i)];
    }
    out := out + ClosersAt(plan, closes, |lines|);
  }

  /** The reader at line i: inside the extent around i, if there is one. Once
      line i's closers are out, an extent that ends there counts as closed. */
  ghost predicate ReaderAt(lines: seq<Line>, plan: Plan, i: nat, r: Reader, closed: bool)
    requires i <= |lines| && forall a | a in plan :: a < |lines|
  {
    && !r.Misplaced? && r.cond == CondAt(lines, i)
    && (r.Inside? ==> r.i in plan && r.i < i <= plan[r.i].0 && (closed ==> i < plan[r.i].0)
                      && r.data == plan[r.i].1 && r.openedIn == CondAt(lines, r.i).stack)
    && (r.Outside? ==> forall a | a in plan && a < i :: if closed then plan[a].0 <= i else plan[a].0 < i)
  }

  /** At most one extent ends at line i: the one the reader is inside. */
  lemma OnlyCloser(lines: seq<Line>, plan: Plan, closes: map<nat, seq<nat>>, i: nat, r: Reader)
    requires ValidLines(lines) && Separated(lines, plan) && ClosesPlan(plan, closes) && i <= |lines|
    requires ReaderAt(lines, plan, i, r, false)
    ensures i in closes <==> r.Inside? && plan[r.i].0 == i
    ensures i in closes ==> closes[i] == [r.i]
  {
    if i in closes {
      var b := closes[i][0];
      assert b in plan && plan[b].0 == i;
    }
  }

  /** Once the extent that ends at i is closed, every earlier one is. */
  lemma AllClosed(lines: seq<Line>, plan: Plan, i: nat, a: nat)
    requires Separated(lines, plan) && a in plan && plan[a].0 == i
    ensures forall b | b in plan && b < i :: plan[b].0 <= i
  {
    forall b: nat | b in plan && b < i
      ensures plan[b].0 <= i
    {
      assert b < a ==> plan[b].0 <= a;
    }
  }

  lemma ClosersRead(lines: seq<Line>, plan: Plan, closes: map<nat, seq<nat>>, i: nat,
                    out: seq<Item>)
    requires ValidLines(lines) && Separated(lines, plan) && ClosesPlan(plan, closes) && i <= |lines|
    requires ReaderAt(lines, plan, i, ReadAll(lines, out), false)
    ensures ReaderAt(lines, plan, i, ReadAll(lines, out + ClosersAt(plan, closes, i)), true)
    ensures Sources(out + ClosersAt(plan, closes, i)) == Sources(out)
  {
    OnlyCloser(lines, plan, closes, i, ReadAll(lines, out));
    if i in closes {
      var a := closes[i][0];
      var item := Closed(a, plan[a].1);
      assert ClosersAt(plan, closes, i) == [item];
      ReadSnoc(lines, out, item);
      SourcesSnoc(out, item);
      AllClosed(lines, plan, i, a);
    } else {
      assert out + ClosersAt(plan, closes, i) == out;
    }
  }

  lemma OpenerRead(lines: seq<Line>, plan: Plan, gone: set<string>, i: nat, out: seq<Item>)
    requires ValidLines(lines) && Separated(lines, plan) && i in plan
    requires ReaderAt(lines, plan, i, ReadAll(lines, out), true)
    ensures ReadAll(lines, out + LineAt(lines, plan, gone, i))
         == Inside(CondAt(lines, i), i, plan[i].1, CondAt(lines, i).stack)
    ensures Sources(out + LineAt(lines, plan, gone, i)) == Sources(out) + [i]
  {
    var r, item := ReadAll(lines, out), Opened(i, plan[i].1);
    ReadSnoc(lines, out, item);
    SourcesSnoc(out, item);
    if lines[i].tail {
      ReadSnoc(lines, out + [item], Trailing(i));
      SourcesSnoc(out + [item], Trailing(i));
      assert out + LineAt(lines, plan, gone, i) == out + [item] + [Trailing(i)];
    } else {
      assert out + LineAt(lines, plan, gone, i) == out + [item];
    }
  }

  lemma InsideNext(lines: seq<Line>, plan: Plan, i: nat)
    requires ValidLines(lines) && Separated(lines, plan) && i in plan
    ensures ReaderAt(lines, plan, i + 1, Inside(CondAt(lines, i), i, plan[i].1, CondAt(lines, i).stack), false)
  {
    assert lines[i].Valid();
  }

  /** A line that is no planned label leaves the reader in or out of extents. */
  lemma PlainNext(lines: seq<Line>, plan: Plan, i: nat, r: Reader)
    requires Separated(lines, plan) && i < |lines| && i !in plan && ReaderAt(lines, plan, i, r, true)
    ensures ReaderAt(lines, plan, i + 1, Read(r, lines, Kept(i)), false)
    ensures lines[i].cpp.None? ==> ReaderAt(lines, plan, i + 1, r, false)
  {
  }

  lemma PlainRead(lines: seq<Line>, plan: Plan, gone: set<string>, i: nat, out: seq<Item>)
    requires ValidLines(lines) && Separated(lines, plan) && i < |lines| && i !in plan
    requires ReaderAt(lines, plan, i, ReadAll(lines, out), true)
    ensures ReaderAt(lines, plan, i + 1, ReadAll(lines, out + LineAt(lines, plan, gone, i)), false)
    ensures Sources(out + LineAt(lines, plan, gone, i))
         == Sources(out) + if Dropped(lines[i], gone) then [] else [i]
  {
    PlainNext(lines, plan, i, ReadAll(lines, out));
    if Dropped(lines[i], gone) {
      assert lines[i].Valid();
      assert out + LineAt(lines, plan, gone, i) == out;
    } else {
      ReadSnoc(lines, out, Kept(i));
      SourcesSnoc(out, Kept(i));
    }
  }

  lemma LineRead(lines: seq<Line>, plan: Plan, gone: set<string>, i: nat, out: seq<Item>)
    requires ValidLines(lines) && Separated(lines, plan) && i < |lines|
    requires ReaderAt(lines, plan, i, ReadAll(lines, out), true)
    ensures ReaderAt(lines, plan, i + 1, ReadAll(lines, out + LineAt(lines, plan, gone, i)), false)
    ensures Sources(out + LineAt(lines, plan, gone, i))
         == Sources(out) + if Dropped(lines[i], gone) then [] else [i]
  {
    if i in plan {
      assert lines[i].Valid();
      OpenerRead(lines, plan, gone, i, out);
      InsideNext(lines, plan, i);
    } else {
      PlainRead(lines, plan, gone, i, out);
    }
  }

  /** The output so far meets no misplaced directive, and shows every line
      below i but the .global lines that are gone, in order. */
  ghost predicate Shows(lines: seq<Line>, plan: Plan, gone: set<string>, i: nat, out: seq<Item>)
    requires i <= |lines| && forall a | a in plan :: a < |lines|
  {
    ReaderAt(lines, plan, i, ReadAll(lines, out), false) && Sources(out) == Survivors(lines, gone, i)
  }

  lemma {:induction false} OutputReads(
    lines: seq<Line>, plan: Plan, closes: map<nat, seq<nat>>, gone: set<string>, i: nat)
    requires ValidLines(lines) && Separated(lines, plan) && ClosesPlan(plan, closes) && i <= |lines|
    ensures Shows(lines, plan, gone, i, Output(lines, plan, closes, gone, i))
  {
    if i == 0 {
      NothingShown(lines, plan, gone);
    } else {
      var out := Output(lines, plan, closes, gone, i - 1);
      OutputReads(lines, plan, closes, gone, i - 1);
      RoundRead(lines, plan, closes, gone, i - 1, out);
      OutputRound(lines, plan, closes, gone, i - 1);
    }
  }

  lemma NothingShown(lines: seq<Line>, plan: Plan, gone: set<string>)
    requires forall a | a in plan :: a < |lines|
    ensures Shows(lines, plan, gone, 0, [])
  {
  }

  lemma OutputRound(lines: seq<Line>, plan: Plan, closes: map<nat, seq<nat>>, gone: set<string>, i: nat)
    requires ClosesPlan(plan, closes) && i < |lines|
    ensures Output(lines, plan, closes, gone, i + 1)
         == Output(lines, plan, closes, gone, i) + ClosersAt(plan, closes, i) + LineAt(lines, plan, gone, i)
  {
  }

  /** One round of emission: line i's closers, then line i. */
  lemma RoundRead(lines: seq<Line>, plan: Plan, closes: map<nat, seq<nat>>, gone: set<string>, i: nat, out: seq<Item>)
    requires ValidLines(lines) && Separated(lines, plan) && ClosesPlan(plan, closes) && i < |lines|
    requires Shows(lines, plan, gone, i, out)
    ensures Shows(lines, plan, gone, i + 1, out + ClosersAt(plan, closes, i) + LineAt(lines, plan, gone, i))
  {
    ClosersRead(lines, plan, closes, i, out);
    LineRead(lines, plan, gone, i, out + ClosersAt(plan, closes, i));
  }

  /** The whole output: every closer follows its opener under the same
      conditionals, pairs neither nest nor overlap, and nothing stays open. */
  lemma OutputBracketed(
    lines: seq<Line>, plan: Plan, globals: set<string>, closes: map<nat, seq<nat>>, gone: set<string>)
    requires ValidLines(lines) && PlanFits(lines, plan, globals) && ClosesPlan(plan, closes)
    ensures var out := Output(lines, plan, closes, gone, |lines|) + ClosersAt(plan, closes, |lines|);
      && ReadAll(lines, out) == Outside(CondAt(lines, |lines|))
      && Sources(out) == Survivors(lines, gone, |lines|)
    ensures forall i: nat | i in plan :: SameBranch(lines, i, plan[i].0)
  {
    FitsSeparated(lines, plan, globals);
    OutputReads(lines, plan, closes, gone, |lines|);
    ClosersRead(lines, plan, closes, |lines|, Output(lines, plan, closes, gone, |lines|));
  }

  // ---- Where each directive stands -----------------------------------------

  /** Item j of the output stands where it belongs: a kept line or an opener
      after the lines before it, what followed a label after its opener, and a
      closer where its extent ends. */
  ghost predicate InPlace(lines: seq<Line>, plan: Plan, gone: set<string>, out: seq<Item>, j: nat)
    requires j < |out| && forall a | a in plan :: a < |lines| && plan[a].0 <= |lines|
  {
    var before := Sources(out[..j]);
    match out[j]
    case Kept(i) => i < |lines| && i !in plan && !Dropped(lines[i], gone) && before == Survivors(lines, gone, i)
    case Opened(i, data) => i in plan && data == plan[i].1 && before == Survivors(lines, gone, i)
    case Trailing(i) => i in plan && lines[i].tail && j > 0 && out[j - 1] == Opened(i, plan[i].1)
    case Closed(i, data) => i in plan && data == plan[i].1 && before == Survivors(lines, gone, plan[i].0)
  }

  ghost predicate AllInPlace(lines: seq<Line>, plan: Plan, gone: set<string>, out: seq<Item>)
    requires forall a | a in plan :: a < |lines| && plan[a].0 <= |lines|
  {
    forall j: nat | j < |out| :: InPlace(lines, plan, gone, out, j)
  }

  lemma OneInPlace(lines: seq<Line>, plan: Plan, gone: set<string>, out: seq<Item>, item: Item)
    requires (forall a | a in plan :: a < |lines| && plan[a].0 <= |lines|) && AllInPlace(lines, plan, gone, out)
    requires InPlace(lines, plan, gone, out + [item], |out|)
    ensures AllInPlace(lines, plan, gone, out + [item])
  {
    var more := out + [item];
    forall j: nat | j < |more|
      ensures InPlace(lines, plan, gone, more, j)
    {
      if j < |out| {
        assert InPlace(lines, plan, gone, out, j);
        assert more[..j] == out[..j];
      }
    }
  }

  lemma ClosersInPlace(
    lines: seq<Line>, plan: Plan, closes: map<nat, seq<nat>>, gone: set<string>, i: nat, out: seq<Item>)
    requires ValidLines(lines) && Separated(lines, plan) && ClosesPlan(plan, closes) && i <= |lines|
    requires Sources(out) == Survivors(lines, gone, i) && AllInPlace(lines, plan, gone, out)
    ensures AllInPlace(lines, plan, gone, out + ClosersAt(plan, closes, i))
  {
    if i in closes {
      var item := Closed(closes[i][0], plan[closes[i][0]].1);
      assert ClosersAt(plan, closes, i) == [item];
      assert (out + [item])[..|out|] == out;
      OneInPlace(lines, plan, gone, out, item);
    } else {
      assert out + ClosersAt(plan, closes, i) == out;
    }
  }

  lemma LineInPlace(lines: seq<Line>, plan: Plan, gone: set<string>, i: nat, out: seq<Item>)
    requires ValidLines(lines) && Separated(lines, plan) && i < |lines|
    requires Sources(out) == Survivors(lines, gone, i) && AllInPlace(lines, plan, gone, out)
    ensures AllInPlace(lines, plan, gone, out + LineAt(lines, plan, gone, i))
  {
    var line := LineAt(lines, plan, gone, i);
    if line == [] {
      assert out + line == out;
    } else {
      var more := out + [line[0]];
      assert more[..|out|] == out;
      OneInPlace(lines, plan, gone, out, line[0]);
      if |line| == 1 {
        assert out + line == more;
      } else {
        assert out + line == more + [line[1]];
        OneInPlace(lines, plan, gone, more, line[1]);
      }
    }
  }

  lemma {:induction false} OutputInPlace(
    lines: seq<Line>, plan: Plan, closes: map<nat, seq<nat>>, gone: set<string>, i: nat)
    requires ValidLines(lines) && Separated(lines, plan) && ClosesPlan(plan, closes) && i <= |lines|
    ensures AllInPlace(lines, plan, gone, Output(lines, plan, closes, gone, i))
  {
    if i == 0 {
      NothingInPlace(lines, plan, gone);
    } else {
      var out := Output(lines, plan, closes, gone, i - 1);
      OutputReads(lines, plan, closes, gone, i - 1);
      OutputInPlace(lines, plan, closes, gone, i - 1);
      RoundInPlace(lines, plan, closes, gone, i - 1, out);
      OutputRound(lines, plan, closes, gone, i - 1);
    }
  }

  lemma NothingInPlace(lines: seq<Line>, plan: Plan, gone: set<string>)
    requires forall a | a in plan :: a < |lines| && plan[a].0 <= |lines|
    ensures AllInPlace(lines, plan, gone, [])
  {
  }

  lemma RoundInPlace(
    lines: seq<Line>, plan: Plan, closes: map<nat, seq<nat>>, gone: set<string>, i: nat, out: seq<Item>)
    requires ValidLines(lines) && Separated(lines, plan) && ClosesPlan(plan, closes) && i < |lines|
    requires Shows(lines, plan, gone, i, out) && AllInPlace(lines, plan, gone, out)
    ensures AllInPlace(lines, plan, gone, out + ClosersAt(plan, closes, i) + LineAt(lines, plan, gone, i))
  {
    ClosersInPlace(lines, plan, closes, gone, i, out);
    ClosersRead(lines, plan, closes, i, out);
    LineInPlace(lines, plan, gone, i, out + ClosersAt(plan, closes, i));
  }

  /** What has been written stays. */
  lemma {:induction false} OutputKeeps(
    lines: seq<Line>, plan: Plan, closes: map<nat, seq<nat>>, gone: set<string>, i: nat, n: nat, item: Item)
    requires ClosesPlan(plan, closes) && i < n <= |lines|
    requires item in ClosersAt(plan, closes, i) || item in LineAt(lines, plan, gone, i)
    ensures item in Output(lines, plan, closes, gone, n)
    decreases n
  {
    OutputRound(lines, plan, closes, gone, n - 1);
    if i < n - 1 {
      OutputKeeps(lines, plan, closes, gone, i, n - 1, item);
    }
  }

  /** All that belongs to the extent at a is there. */
  ghost predicate Written(lines: seq<Line>, plan: Plan, out: seq<Item>, a: nat)
    requires a in plan && a < |lines|
  {
    && Opened(a, plan[a].1) in out && (lines[a].tail ==> Trailing(a) in out)
    && Closed(a, plan[a].1) in out
  }

  lemma OutputWrites(lines: seq<Line>, plan: Plan, closes: map<nat, seq<nat>>, gone: set<string>, a: nat)
    requires ValidLines(lines) && Separated(lines, plan) && ClosesPlan(plan, closes) && a in plan
    ensures Written(lines, plan, Output(lines, plan, closes, gone, |lines|) + ClosersAt(plan, closes, |lines|), a)
  {
    var out, last := Output(lines, plan, closes, gone, |lines|), ClosersAt(plan, closes, |lines|);
    assert Opened(a, plan[a].1) in out && (lines[a].tail ==> Trailing(a) in out) by {
      OpenerThere(lines, plan, gone, a);
      OutputKeeps(lines, plan, closes, gone, a, |lines|, Opened(a, plan[a].1));
      if lines[a].tail {
        OutputKeeps(lines, plan, closes, gone, a, |lines|, Trailing(a));
      }
    }
    assert Closed(a, plan[a].1) in out || Closed(a, plan[a].1) in last by {
      CloserThere(plan, closes, a);
      if plan[a].0 < |lines| {
        OutputKeeps(lines, plan, closes, gone, plan[a].0, |lines|, Closed(a, plan[a].1));
      }
    }
  }

  lemma OpenerThere(lines: seq<Line>, plan: Plan, gone: set<string>, a: nat)
    requires a in plan && a < |lines|
    ensures Opened(a, plan[a].1) in LineAt(lines, plan, gone, a)
    ensures lines[a].tail ==> Trailing(a) in LineAt(lines, plan, gone, a)
  {
    var line := LineAt(lines, plan, gone, a);
    assert line[0] == Opened(a, plan[a].1) && (lines[a].tail ==> line[1] == Trailing(a));
  }

  lemma CloserThere(plan: Plan, closes: map<nat, seq<nat>>, a: nat)
    requires ClosesPlan(plan, closes) && a in plan
    ensures Closed(a, plan[a].1) in ClosersAt(plan, closes, plan[a].0)
  {
    assert ClosersAt(plan, closes, plan[a].0)[0] == Closed(a, plan[a].1);
  }

  /** Every planned extent gets its directives, each where it belongs. */
  ghost predicate Annotated(lines: seq<Line>, plan: Plan, gone: set<string>, out: seq<Item>)
    requires forall a | a in plan :: a < |lines| && plan[a].0 <= |lines|
  {
    AllInPlace(lines, plan, gone, out) && forall a: nat | a in plan :: Written(lines, plan, out, a)
  }

  lemma OutputAnnotated(lines: seq<Line>, plan: Plan, closes: map<nat, seq<nat>>, gone: set<string>)
    requires ValidLines(lines) && Separated(lines, plan) && ClosesPlan(plan, closes)
    ensures Annotated(lines, plan, gone,
                      Output(lines, plan, closes, gone, |lines|) + ClosersAt(plan, closes, |lines|))
  {
    var n, out := |lines|, Output(lines, plan, closes, gone, |lines|);
    OutputReads(lines, plan, closes, gone, n);
    OutputInPlace(lines, plan, closes, gone, n);
    ClosersInPlace(lines, plan, closes, gone, n, out);
    forall a: nat | a in plan
      ensures Written(lines, plan, out + ClosersAt(plan, closes, n), a)
    {
      OutputWrites(lines, plan, closes, gone, a);
    }
  }

  /** The lines that survive are those that are not .global lines of a symbol in
      gone, in their order. */
  lemma {:induction false} SurvivorsAre(lines: seq<Line>, gone: set<string>, i: nat)
    requires i <= |lines|
    ensures forall k :: k in Survivors(lines, gone, i) <==> (0 <= k < i && Survives(lines[k], gone))
    ensures Ascending(Survivors(lines, gone, i), i)
  {
    if i > 0 {
      SurvivorsAre(lines, gone, i - 1);
    }
  }

  /** By the field alone: no .global line of a symbol in gone. */
  predicate Survives(line: Line, gone: set<string>) {
    match line.global
    case None => true
    case Some(name) => name !in gone
  }

  ghost predicate Ascending(s: seq<nat>, n: nat) {
    (forall k | 0 <= k < |s| :: s[k] < n) && forall j, k | 0 <= j < k < |s| :: s[j] < s[k]
  }

  /** The whole output as a reader of the file sees it: the lines that survive,
      in order, and round every planned extent its directives, which stand where
      it begins and ends and in one branch of the conditionals. */
  ghost predicate WellAnnotated(lines: seq<Line>, plan: Plan, gone: set<string>, out: seq<Item>) {
    && (forall i: nat | i in plan :: i < plan[i].0 <= |lines| && SameBranch(lines, i, plan[i].0))
    && Ascending(Sources(out), |lines|)
    && (forall k :: k in Sources(out) <==> (0 <= k < |lines| && Survives(lines[k], gone)))
    && Annotated(lines, plan, gone, out)
  }

  lemma OutputWellAnnotated(
    lines: seq<Line>, plan: Plan, globals: set<string>, closes: map<nat, seq<nat>>, gone: set<string>)
    requires ValidLines(lines) && PlanFits(lines, plan, globals) && ClosesPlan(plan, closes)
    ensures WellAnnotated(lines, plan, gone,
                          Output(lines, plan, closes, gone, |lines|) + ClosersAt(plan, closes, |lines|))
  {
    OutputBracketed(lines, plan, globals, closes, gone);
    FitsSeparated(lines, plan, globals);
    OutputAnnotated(lines, plan, closes, gone);
    SurvivorsAre(lines, gone, |lines|);
  }

  function GlobalsOf(lines: seq<Line>): set<string> {
    set i | 0 <= i < |lines| && lines[i].global.Some? :: lines[i].global.value
  }

  /** process */
  method Process(lines: seq<Line>, extra: set<string>, inData: bool, alsoStrip: set<string>)
    returns (out: seq<Item>, plan: Plan, closes: map<nat, seq<nat>>, converted: set<string>)
    requires ValidLines(lines)
    ensures Planned(lines, inData, GlobalsOf(lines) + extra, plan, closes, converted, |lines|)
    ensures out == Output(lines, plan, closes, converted + alsoStrip, |lines|) + ClosersAt(plan, closes, |lines|)
    ensures ReadAll(lines, out) == Outside(CondAt(lines, |lines|))
    ensures Sources(out) == Survivors(lines, converted + alsoStrip, |lines|)
    ensures WellAnnotated(lines, plan, converted + alsoStrip, out)
  {
    var globals := GlobalsOf(lines) + extra;
    plan, closes, converted := PlanExtents(lines, inData, globals);
    out := Emit(lines, plan, closes, converted + alsoStrip);
    OutputBracketed(lines, plan, globals, closes, converted + alsoStrip);
    OutputWellAnnotated(lines, plan, globals, closes, converted + alsoStrip);
  }
}
