/**
  Grouping the lines of a chat transcript by year: the first loop of
  `process_chat`. Each line is classified on its own (LineKind); the loop
  then threads a "current year" through the lines and appends every kept
  line, with its trailing line feeds removed, to the list of its year.

  Three views of the same computation:
  - GroupPrefix: the loop as a left fold of Step over the lines;
  - Expected: a per-line reference definition (FateOf says where each line
    goes from its own kind and the last dated line before it);
  - GroupLinesByYear: the loop itself, proved against both.
*/
module ChatGrouping {
  import opened PythonText
  import opened YearParsing

  const LeftToRightMark: char := '\U{200E}'
  const RightToLeftMark: char := '\U{200F}'
  const NarrowNoBreakSpace: char := '\U{202F}'

  /** The cleaning applied to every line before it is inspected: both
      directional marks deleted, the narrow no-break space turned into a
      space. The three replacements touch disjoint characters, so applying
      them one after another is this single per-character map. */
  function Clean(s: string): string {
    if s == [] then []
    else
      (if s[0] == LeftToRightMark || s[0] == RightToLeftMark then []
       else if s[0] == NarrowNoBreakSpace then [' ']
       else [s[0]]) + Clean(s[1..])
  }

  /** `re.match(r'\[([^,]+),', line)`: the captured group, if the line starts
      with `[`, then one or more non-commas, then a comma. The group is the
      text between the `[` and the first comma, which must sit at index 2 or
      later. */
  function DateMatch(line: string): Option<string> {
    if |line| > 0 && line[0] == '[' then
      match IndexOf(line[1..], ',')
      case Some(k) => if k >= 1 then Some(line[1..k + 1]) else None
      case None => None
    else None
  }

  /** The regular expression matches exactly when the line starts with `[`
      and its first comma sits at index 2 or later; the group is the
      comma-free text between the two. */
  lemma DateMatchIsRegexMatch(line: string)
    ensures DateMatch(line).Some? <==>
      && |line| > 0 && line[0] == '['
      && exists k :: 2 <= k < |line| && line[k] == ',' && forall j :: 1 <= j < k ==> line[j] != ','
    ensures DateMatch(line).Some? ==>
      var g := DateMatch(line).value;
      && 2 + |g| <= |line|
      && g == line[1..1 + |g|]
      && line[1 + |g|] == ','
      && NoneIn(g, {','})
  {
    if |line| > 0 && line[0] == '[' {
      IndexOfFirst(line[1..], ',');
      match IndexOf(line[1..], ',')
      case Some(k) =>
        if k >= 1 {
          assert line[k + 1] == ',';
          assert forall j :: 1 <= j < k + 1 ==> line[j] == line[1..][j - 1];
        } else {
          assert line[1] == ',';
        }
      case None =>
        assert forall j :: 1 <= j < |line| ==> line[j] == line[1..][j - 1];
    }
  }

  /** Cleaning never lengthens a line and leaves none of the three marks. */
  lemma {:induction false} CleanRemovesMarks(s: string)
    ensures |Clean(s)| <= |s| && NoMarks(Clean(s))
    decreases |s|
  {
    if s != [] {
      CleanRemovesMarks(s[1..]);
    }
  }

  /** How the loop treats one line, independently of the lines before it. */
  datatype LineKind =
    | Dated(year: nat)       // starts with `[date,` and the date gives a non-zero year
    | Yearless               // starts with `[...,` but the token gives no year, or year 0
    | Continuation           // anything else: joins the current year, if any
    | Raises(literal: string) // `int()` raises ValueError on the year field

  /** The line as stored in a group: `line.rstrip('\n')`. */
  function Orig(line: string): string {
    RStripNewlines(line)
  }

  /** The kind of a line whose date token gave `d`: `if year:` treats a
      missing year and the year 0 alike. */
  function DateKind(d: DateYear): (k: LineKind)
    ensures k.Dated? <==> d.Year? && d.value != 0
    ensures k.Raises? <==> d.ValueError?
    ensures k.Dated? ==> k.year == d.value
    ensures k.Raises? ==> k.literal == d.literal
  {
    match d
    case Year(y) => if y != 0 then Dated(y) else Yearless
    case NoYear => Yearless
    case ValueError(lit) => Raises(lit)
  }

  function Classify(line: string): (k: LineKind)
    ensures k.Dated? ==> k.year != 0
  {
    var cleaned := Clean(Orig(line));
    if |cleaned| > 0 && cleaned[0] == '[' then
      match DateMatch(cleaned)
      case None => Continuation
      case Some(group) => DateKind(ExtractYearFromDate(Strip(group)))
    else Continuation
  }

  /** A transcript line as the loop sees it: its kind, and the text that
      is stored if the line is kept. */
  datatype Line = Line(kind: LineKind, stored: string)

  function Read(line: string): Line {
    Line(Classify(line), Orig(line))
  }

  function ReadAll(lines: seq<string>): (ls: seq<Line>)
    ensures |ls| == |lines|
  {
    if lines == [] then [] else ReadAll(lines[..|lines| - 1]) + [Read(lines[|lines| - 1])]
  }

  lemma {:induction false} ReadAllPrefix(lines: seq<string>, k: nat)
    requires k <= |lines|
    ensures ReadAll(lines)[..k] == ReadAll(lines[..k])
    decreases |lines|
  {
    if k < |lines| {
      var init := lines[..|lines| - 1];
      ReadAllPrefix(init, k);
      assert init[..k] == lines[..k];
      assert ReadAll(lines)[..k] == ReadAll(init)[..k];
    } else {
      assert lines[..k] == lines;
    }
  }

  // ---------------------------------------------------------------------
  // Classifying raw lines

  predicate IsDirectionalMark(c: char) {
    c == LeftToRightMark || c == RightToLeftMark
  }

  predicate NoMarks(s: string) {
    NoneIn(s, {LeftToRightMark, RightToLeftMark, NarrowNoBreakSpace})
  }

  /** Cleaning works character by character. */
  lemma {:induction false} CleanAppend(a: string, b: string)
    ensures Clean(a + b) == Clean(a) + Clean(b)
    decreases |a|
  {
    if a == [] {
      assert a + b == b;
    } else {
      assert (a + b)[0] == a[0];
      assert (a + b)[1..] == a[1..] + b;
      CleanAppend(a[1..], b);
    }
  }

  /** Text without any of the three marks is left as it is. */
  lemma {:induction false} CleanWithoutMarks(s: string)
    requires NoMarks(s)
    ensures Clean(s) == s
    decreases |s|
  {
    if s != [] {
      CleanWithoutMarks(s[1..]);
      assert [s[0]] + s[1..] == s;
    }
  }

  /** Directional marks vanish. */
  lemma {:induction false} CleanDirectionalMarks(marks: string)
    requires forall i :: 0 <= i < |marks| ==> IsDirectionalMark(marks[i])
    ensures Clean(marks) == []
    decreases |marks|
  {
    if marks != [] {
      CleanDirectionalMarks(marks[1..]);
    }
  }

  /** `rstrip('\n')` keeps a line that does not end in a line feed. */
  lemma OrigUnchanged(line: string)
    requires line == [] || line[|line| - 1] != '\n'
    ensures Orig(line) == line
  {
  }

  /** Marks in front of mark-free text are all that cleaning removes. */
  lemma CleanBehindMarks(marks: string, body: string)
    requires forall i :: 0 <= i < |marks| ==> IsDirectionalMark(marks[i])
    requires NoMarks(body)
    ensures Clean(marks + body) == body
  {
    CleanAppend(marks, body);
    CleanDirectionalMarks(marks);
    CleanWithoutMarks(body);
  }

  /** The regular expression captures the text before the first comma. */
  lemma DateMatchToken(token: string, rest: string)
    requires |token| >= 1 && NoneIn(token, {','})
    ensures DateMatch("[" + token + "," + rest) == Some(token)
  {
    var body := "[" + token + "," + rest;
    assert body[1..][|token|] == ',';
    assert forall j :: 0 <= j < |token| ==> body[1..][j] == token[j];
    IndexOfFirst(body[1..], ',');
    assert IndexOf(body[1..], ',') == Some(|token|);
    assert body[1..|token| + 1] == token;
  }

  /** A line written as `[<token>,<rest>`, possibly behind directional marks,
      is classified by the year of its date token alone: the text after the
      first comma plays no part, whatever marks or line feeds it holds. */
  lemma BracketedLine(marks: string, token: string, rest: string)
    requires forall i :: 0 <= i < |marks| ==> IsDirectionalMark(marks[i])
    requires |token| >= 1 && NoneIn(token, {','}) && NoMarks(token)
    ensures Classify(marks + "[" + token + "," + rest) == DateKind(ExtractYearFromDate(Strip(token)))
  {
    var head := "[" + token + ",";
    var line := marks + head + rest;
    assert line == marks + "[" + token + "," + rest;
    assert (marks + head)[|marks + head| - 1] == ',';
    RStripNewlinesAppend(marks + head, rest);
    assert NoMarks(head) by {
      forall i | 0 <= i < |head|
        ensures head[i] !in {LeftToRightMark, RightToLeftMark, NarrowNoBreakSpace}
      {
        if 1 <= i <= |token| { assert head[i] == token[i - 1]; }
      }
    }
    CleanAppend(marks + head, Orig(rest));
    CleanBehindMarks(marks, head);
    assert Clean(Orig(line)) == "[" + token + "," + Clean(Orig(rest));
    DateMatchToken(token, Clean(Orig(rest)));
  }

  /** A line whose cleaned text does not start with `[` continues the
      current year, however it is written. */
  lemma UnbracketedLine(line: string)
    requires var c := Clean(Orig(line)); c == [] || c[0] != '['
    ensures Classify(line) == Continuation
  {
  }

  /** A zero year (`[1/1/0000, ...`) is no year: such a line is dropped. */
  lemma ZeroYearDropped(marks: string, token: string, rest: string)
    requires forall i :: 0 <= i < |marks| ==> IsDirectionalMark(marks[i])
    requires |token| >= 1 && NoneIn(token, {','}) && NoMarks(token)
    requires ExtractYearFromDate(Strip(token)) == Year(0)
    ensures Classify(marks + "[" + token + "," + rest) == Yearless
    ensures forall prior :: FateOf(prior, Read(marks + "[" + token + "," + rest)) == Dropped
  {
    BracketedLine(marks, token, rest);
  }

  /** Reading a transcript reads each line on its own. */
  lemma {:induction false} ReadAllIndex(lines: seq<string>, j: nat)
    requires j < |lines|
    ensures ReadAll(lines)[j].kind == Classify(lines[j])
    ensures ReadAll(lines)[j].stored == RStripNewlines(lines[j])
    decreases |lines|
  {
    if j < |lines| - 1 {
      ReadAllIndex(lines[..|lines| - 1], j);
    }
  }

  /** A message line `[d/m/y,<rest>` is dated with the year `y`, widened
      to 20yy when it has two digits (`[1/2/14, 10:00] Hello` is dated 2014). */
  lemma DatedMessageLine(marks: string, fields: seq<string>, y: nat, rest: string)
    requires forall i :: 0 <= i < |marks| ==> IsDirectionalMark(marks[i])
    requires |fields| == 3 && forall i :: 0 <= i < 3 ==> AllDigits(fields[i])
    requires fields[2] == NatToString(y) && y != 0
    ensures Classify(marks + "[" + Join(fields, '/') + "," + rest) == Dated(if 10 <= y < 100 then 2000 + y else y)
  {
    var token := Join(fields, '/');
    DigitTokenPlain(fields);
    BracketedLine(marks, token, rest);
    assert ExtractYearFromDate(Strip(token)) == Year(if 10 <= y < 100 then 2000 + y else y) by {
      DigitTokenUnstripped(fields);
      DateRoundTrip(fields, y);
    }
  }

  /** A date token of digit fields and slashes has no comma and no mark. */
  lemma DigitTokenPlain(fields: seq<string>)
    requires |fields| >= 1 && forall i :: 0 <= i < |fields| ==> AllDigits(fields[i])
    ensures NoMarks(Join(fields, '/')) && NoneIn(Join(fields, '/'), {','})
  {
    var token := Join(fields, '/');
    JoinDigits(fields, '/');
    assert forall i :: 0 <= i < |token| ==> '/' <= token[i] <= '9';
  }

  /** The shape of the three-line transcript `[1/2/14, 10:00] Hello`,
      `  still part of hello`, `[3/4/2015, 9:00] Bye`: the continuation joins
      the first year, and each dated line opens its own group. */
  lemma TranscriptExample(l1: string, l2: string, l3: string, a: nat, b: nat)
    requires a != b
    ensures GroupPrefix([Line(Dated(a), l1), Line(Continuation, l2), Line(Dated(b), l3)]) ==
      Ok(GroupState(map[a := [l1, l2], b := [l3]], Some(b)))
  {
    var ls := [Line(Dated(a), l1), Line(Continuation, l2), Line(Dated(b), l3)];
    assert ls[..1][..0] == [] && ls[..2][..1] == ls[..1] && ls[..3] == ls;
    assert GroupPrefix(ls[..1]) == Ok(GroupState(map[a := [l1]], Some(a))) by {
      assert GetOrEmpty(map[], a) + [l1] == [l1];
    }
    assert GroupPrefix(ls[..2]) == Ok(GroupState(map[a := [l1, l2]], Some(a))) by {
      assert [l1] + [l2] == [l1, l2];
      assert map[a := [l1]][a := [l1, l2]] == map[a := [l1, l2]];
      assert ls[..2][1] == Line(Continuation, l2);
    }
    assert GetOrEmpty(map[a := [l1, l2]], b) + [l3] == [l3];
  }

  // ---------------------------------------------------------------------
  // The loop as a fold

  /** The outcome of the loop: the year groups, or the ValueError that
      escapes from `int()`. */
  datatype Result<T> = Ok(value: T) | ValueErrorRaised(literal: string)

  /** `year_groups` and `current_year` between two iterations. */
  datatype GroupState = GroupState(groups: map<nat, seq<string>>, current: Option<nat>)

  /** `current_year`, once set, is a key of `year_groups`. */
  predicate Consistent(s: GroupState) {
    s.current.Some? ==> s.current.value in s.groups
  }

  /** One iteration of the loop. */
  function Step(s: GroupState, l: Line): (r: Result<GroupState>)
    requires Consistent(s)
    ensures r.Ok? ==> Consistent(r.value)
  {
    match l.kind
    case Dated(y) => Ok(GroupState(s.groups[y := GetOrEmpty(s.groups, y) + [l.stored]], Some(y)))
    case Yearless => Ok(s)
    case Continuation =>
      if s.current.Some? then
        Ok(GroupState(s.groups[s.current.value := s.groups[s.current.value] + [l.stored]], s.current))
      else Ok(s)
    case Raises(lit) => ValueErrorRaised(lit)
  }

  const Start := GroupState(map[], None)

  /** The state after the loop has run over `ls`. */
  function GroupPrefix(ls: seq<Line>): (r: Result<GroupState>)
    ensures r.Ok? ==> Consistent(r.value)
  {
    if ls == [] then Ok(Start)
    else
      match GroupPrefix(ls[..|ls| - 1])
      case ValueErrorRaised(lit) => ValueErrorRaised(lit)
      case Ok(s) => Step(s, ls[|ls| - 1])
  }

  // ---------------------------------------------------------------------
  // The per-line reference definition

  /** The year of the last dated line of `ls`. */
  function LastYear(ls: seq<Line>): Option<nat> {
    if ls == [] then None
    else if ls[|ls| - 1].kind.Dated? then Some(ls[|ls| - 1].kind.year)
    else LastYear(ls[..|ls| - 1])
  }

  /** Where a line goes. */
  datatype Fate = Dropped | Into(year: nat)

  /** Where `l` goes when `prior` are the lines before it: a dated line to
      its own year, a continuation to the year of the last dated line before
      it (dropped if there is none), every other line nowhere. */
  function FateOf(prior: seq<Line>, l: Line): Fate {
    match l.kind
    case Dated(y) => Into(y)
    case Continuation => if LastYear(prior).Some? then Into(LastYear(prior).value) else Dropped
    case Yearless => Dropped
    case Raises(_) => Dropped
  }

  /** The stored lines that go to year `y`, in input order. */
  function Placed(ls: seq<Line>, y: nat): seq<string> {
    if ls == [] then []
    else
      var init, last := ls[..|ls| - 1], ls[|ls| - 1];
      Placed(init, y) + (if FateOf(init, last) == Into(y) then [last.stored] else [])
  }

  /** The years of the dated lines. */
  function ChatYears(ls: seq<Line>): set<nat> {
    if ls == [] then {}
    else
      var k := ls[|ls| - 1].kind;
      ChatYears(ls[..|ls| - 1]) + (if k.Dated? then {k.year} else {})
  }

  /** The field that makes `int()` raise on the first line that does so. */
  function FirstRaise(ls: seq<Line>): Option<string> {
    if ls == [] then None
    else
      var before := FirstRaise(ls[..|ls| - 1]);
      var k := ls[|ls| - 1].kind;
      if before.Some? then before else if k.Raises? then Some(k.literal) else None
  }

  /** One group per dated year, holding the lines placed there. */
  function ReferenceGroups(ls: seq<Line>): map<nat, seq<string>> {
    map y | y in ChatYears(ls) :: Placed(ls, y)
  }

  /** What the loop should leave behind. */
  function Expected(ls: seq<Line>): Result<GroupState> {
    match FirstRaise(ls)
    case Some(lit) => ValueErrorRaised(lit)
    case None => Ok(GroupState(ReferenceGroups(ls), LastYear(ls)))
  }

  lemma {:induction false} LastYearIsChatYear(ls: seq<Line>)
    ensures LastYear(ls).Some? ==> LastYear(ls).value in ChatYears(ls)
    decreases |ls|
  {
    if ls != [] {
      LastYearIsChatYear(ls[..|ls| - 1]);
    }
  }

  lemma {:induction false} PlacedOnlyInChatYears(ls: seq<Line>, y: nat)
    requires y !in ChatYears(ls)
    ensures Placed(ls, y) == []
    decreases |ls|
  {
    if ls != [] {
      var init := ls[..|ls| - 1];
      PlacedOnlyInChatYears(init, y);
      LastYearIsChatYear(init);
    }
  }

  /** How the reference grouping grows by one line: a dropped line leaves it
      as it was, a line placed in year `y` is appended to the group of `y`,
      which is created if it did not exist. */
  lemma ReferenceGroupsSnoc(ls: seq<Line>)
    requires ls != []
    ensures var init, last := ls[..|ls| - 1], ls[|ls| - 1];
      ReferenceGroups(ls) ==
        match FateOf(init, last)
        case Dropped => ReferenceGroups(init)
        case Into(y) => ReferenceGroups(init)[y := GetOrEmpty(ReferenceGroups(init), y) + [last.stored]]
  {
    var init, last := ls[..|ls| - 1], ls[|ls| - 1];
    var m, m' := ReferenceGroups(init), ReferenceGroups(ls);
    match FateOf(init, last)
    case Dropped =>
      assert ChatYears(ls) == ChatYears(init);
      forall y | y in ChatYears(ls) ensures Placed(ls, y) == Placed(init, y) {
      }
    case Into(y) =>
      LastYearIsChatYear(init);
      if y !in ChatYears(init) { PlacedOnlyInChatYears(init, y); }
      assert ChatYears(ls) == ChatYears(init) + {y};
      var n := m[y := GetOrEmpty(m, y) + [last.stored]];
      forall y' | y' in ChatYears(ls) ensures n[y'] == m'[y'] {
        assert Placed(ls, y') == Placed(init, y') + (if y == y' then [last.stored] else []);
      }
      assert n == m';
  }

  /** The loop computes the reference grouping: the ValueError of the first
      raising line, or for each dated year exactly the lines whose fate is
      that year, in input order, and as current year the last dated year. */
  lemma {:induction false} GroupingMatchesReference(ls: seq<Line>)
    ensures GroupPrefix(ls) == Expected(ls)
    decreases |ls|
  {
    if ls == [] {
      assert ReferenceGroups(ls) == map[];
    } else {
      var init := ls[..|ls| - 1];
      GroupingMatchesReference(init);
      if FirstRaise(init).None? {
        ReferenceGroupsSnoc(ls);
        LastYearIsChatYear(init);
      }
    }
  }

  // ---------------------------------------------------------------------
  // Properties of the grouping

  /** The keys of the grouping are exactly the years of the dated lines. */
  lemma {:induction false} ChatYearsAreDatedYears(ls: seq<Line>, y: nat)
    ensures y in ChatYears(ls) <==> exists j :: 0 <= j < |ls| && ls[j].kind == Dated(y)
    decreases |ls|
  {
    if ls != [] {
      var init := ls[..|ls| - 1];
      ChatYearsAreDatedYears(init, y);
      if exists j :: 0 <= j < |ls| && ls[j].kind == Dated(y) {
        var j :| 0 <= j < |ls| && ls[j].kind == Dated(y);
        if j < |init| { assert init[j] == ls[j]; }
      }
      if exists j :: 0 <= j < |init| && init[j].kind == Dated(y) {
        var j :| 0 <= j < |init| && init[j].kind == Dated(y);
        assert ls[j] == init[j];
      }
    }
  }

  /** The current year after a run of lines is that of the last dated line. */
  lemma {:induction false} LastYearIsLastDated(ls: seq<Line>, i: nat)
    requires i < |ls| && ls[i].kind.Dated?
    requires forall k :: i < k < |ls| ==> !ls[k].kind.Dated?
    ensures LastYear(ls) == Some(ls[i].kind.year)
    decreases |ls|
  {
    if i < |ls| - 1 {
      var init := ls[..|ls| - 1];
      assert init[i] == ls[i];
      LastYearIsLastDated(init, i);
    }
  }

  /** There is no current year exactly when no line is dated. */
  lemma {:induction false} NoLastYearWithoutDated(ls: seq<Line>)
    ensures LastYear(ls).None? <==> forall k :: 0 <= k < |ls| ==> !ls[k].kind.Dated?
    decreases |ls|
  {
    if ls != [] {
      var init := ls[..|ls| - 1];
      NoLastYearWithoutDated(init);
      assert forall k :: 0 <= k < |init| ==> init[k] == ls[k];
    }
  }

  /** Every line before the first dated line is dropped, whatever its kind. */
  lemma DroppedBeforeFirstDated(ls: seq<Line>, j: nat)
    requires j < |ls| && forall k :: 0 <= k <= j ==> !ls[k].kind.Dated?
    ensures FateOf(ls[..j], ls[j]) == Dropped
  {
    NoLastYearWithoutDated(ls[..j]);
  }

  /** A continuation line goes to the year of the last dated line before it. */
  lemma ContinuationJoinsLastDated(ls: seq<Line>, i: nat, j: nat)
    requires i < j < |ls| && ls[i].kind.Dated? && ls[j].kind == Continuation
    requires forall k :: i < k < j ==> !ls[k].kind.Dated?
    ensures FateOf(ls[..j], ls[j]) == Into(ls[i].kind.year)
  {
    LastYearIsLastDated(ls[..j], i);
  }

  /** Line `j` is the first dated line of year `y`, and the group of `y`
      starts with it. */
  predicate FirstOfYear(ls: seq<Line>, y: nat, j: nat)
    requires y in ReferenceGroups(ls) && ReferenceGroups(ls)[y] != []
  {
    && j < |ls| && ls[j].kind == Dated(y) && ReferenceGroups(ls)[y][0] == ls[j].stored
    && forall k :: 0 <= k < j ==> ls[k].kind != Dated(y)
  }

  /** Every group is non-empty and starts with the stored text of the first
      dated line of its year. */
  lemma {:induction false} GroupsStartDated(ls: seq<Line>, y: nat)
    requires y in ReferenceGroups(ls)
    ensures ReferenceGroups(ls)[y] != []
    ensures exists j: nat :: FirstOfYear(ls, y, j)
    decreases |ls|
  {
    var init, last := ls[..|ls| - 1], ls[|ls| - 1];
    ReferenceGroupsSnoc(ls);
    var g := ReferenceGroups(ls)[y];
    if y in ReferenceGroups(init) {
      GroupsStartDated(init, y);
      var j: nat :| FirstOfYear(init, y, j);
      assert g[0] == ReferenceGroups(init)[y][0];
      assert ls[j] == init[j];
      assert forall k :: 0 <= k < j ==> ls[k] == init[k];
      assert FirstOfYear(ls, y, j);
    } else {
      assert y !in ChatYears(init);
      ChatYearsAreDatedYears(init, y);
      LastYearIsChatYear(init);
      assert last.kind == Dated(y);
      assert g == [last.stored];
      assert forall k :: 0 <= k < |init| ==> ls[k] == init[k];
      assert FirstOfYear(ls, y, |ls| - 1);
    }
  }

  /** The number of lines held by all groups together. */
  ghost function Total(m: map<nat, seq<string>>): nat
    decreases |m|
  {
    if m == map[] then 0
    else
      var y :| y in m;
      assert |m - {y}| < |m| by { assert (m - {y}).Keys < m.Keys; }
      |m[y]| + Total(m - {y})
  }

  lemma {:induction false} TotalRemove(m: map<nat, seq<string>>, y: nat)
    requires y in m
    ensures Total(m) == |m[y]| + Total(m - {y})
    decreases |m|
  {
    var z :| z in m && Total(m) == |m[z]| + Total(m - {z});
    if z != y {
      assert |m - {z}| < |m| by { assert (m - {z}).Keys < m.Keys; }
      assert |m - {y}| < |m| by { assert (m - {y}).Keys < m.Keys; }
      TotalRemove(m - {z}, y);
      TotalRemove(m - {y}, z);
      assert m - {z} - {y} == m - {y} - {z};
    }
  }

  lemma TotalAppend(m: map<nat, seq<string>>, y: nat, v: string)
    ensures Total(m[y := GetOrEmpty(m, y) + [v]]) == Total(m) + 1
  {
    var m' := m[y := GetOrEmpty(m, y) + [v]];
    TotalRemove(m', y);
    assert m' - {y} == m - {y};
    if y in m {
      TotalRemove(m, y);
    } else {
      assert m - {y} == m;
    }
  }

  /** The number of lines of `ls` that are kept. */
  function KeptCount(ls: seq<Line>): (n: nat)
    ensures n <= |ls|
  {
    if ls == [] then 0
    else KeptCount(ls[..|ls| - 1]) + (if FateOf(ls[..|ls| - 1], ls[|ls| - 1]).Into? then 1 else 0)
  }

  /** No line is duplicated: the groups hold as many lines as are kept, so
      never more than there are input lines. */
  lemma {:induction false} GroupedLineCount(ls: seq<Line>)
    ensures Total(ReferenceGroups(ls)) == KeptCount(ls) <= |ls|
    decreases |ls|
  {
    if ls == [] {
      assert ReferenceGroups(ls) == map[];
    } else {
      var init := ls[..|ls| - 1];
      GroupedLineCount(init);
      ReferenceGroupsSnoc(ls);
      match FateOf(init, ls[|ls| - 1])
      case Dropped =>
      case Into(y) => TotalAppend(ReferenceGroups(init), y, ls[|ls| - 1].stored);
    }
  }

  /** The loop ends in a ValueError exactly when some line raises, and
      then with the literal of the first such line. */
  lemma {:induction false} RaiseIsFirstRaise(ls: seq<Line>)
    ensures GroupPrefix(ls).ValueErrorRaised? <==> FirstRaise(ls).Some?
    ensures GroupPrefix(ls).ValueErrorRaised? ==> FirstRaise(ls) == Some(GroupPrefix(ls).literal)
    decreases |ls|
  {
    if ls != [] {
      RaiseIsFirstRaise(ls[..|ls| - 1]);
    }
  }

  lemma {:induction false} RaisePersists(ls: seq<Line>, k: nat)
    requires k <= |ls| && GroupPrefix(ls[..k]).ValueErrorRaised?
    ensures GroupPrefix(ls) == GroupPrefix(ls[..k])
    decreases |ls|
  {
    if k == |ls| {
      assert ls[..k] == ls;
    } else {
      var init := ls[..|ls| - 1];
      assert init[..k] == ls[..k];
      RaisePersists(init, k);
    }
  }

  lemma PrefixStep(lines: seq<string>, i: nat, s: GroupState)
    requires i < |lines| && GroupPrefix(ReadAll(lines[..i])) == Ok(s)
    ensures GroupPrefix(ReadAll(lines[..i + 1])) == Step(s, Read(lines[i]))
  {
    assert lines[..i + 1][..i] == lines[..i];
  }

  // ---------------------------------------------------------------------
  // The loop itself

  /** The grouping loop of `process_chat`: `year_groups` and `current_year`
      are updated line by line; a ValueError from `int()` ends it. */
  method GroupLinesByYear(lines: seq<string>) returns (r: Result<map<nat, seq<string>>>)
    ensures FirstRaise(ReadAll(lines)).Some? ==> r == ValueErrorRaised(FirstRaise(ReadAll(lines)).value)
    ensures FirstRaise(ReadAll(lines)).None? ==> r == Ok(ReferenceGroups(ReadAll(lines)))
  {
    var yearGroups: map<nat, seq<string>> := map[];
    var currentYear: Option<nat> := None;
    var i := 0;
    while i < |lines|
      invariant 0 <= i <= |lines|
      invariant GroupPrefix(ReadAll(lines[..i])) == Ok(GroupState(yearGroups, currentYear))
    {
      PrefixStep(lines, i, GroupState(yearGroups, currentYear));
      var next := GroupLine(lines[i], yearGroups, currentYear);
      if next.ValueErrorRaised? {
        RaiseEndsGrouping(lines, i, next.literal);
        return ValueErrorRaised(next.literal);
      }
      yearGroups, currentYear := next.value.groups, next.value.current;
      i := i + 1;
    }
    assert lines[..i] == lines;
    LoopEnd(ReadAll(lines), GroupState(yearGroups, currentYear));
    r := Ok(yearGroups);
  }

  /** The body of the grouping loop for one line: the ValueError that
      escapes from `int()`, or the updated `year_groups` and `current_year`. */
  method GroupLine(line: string, yearGroups: map<nat, seq<string>>, currentYear: Option<nat>)
    returns (r: Result<GroupState>)
    requires Consistent(GroupState(yearGroups, currentYear))
    ensures r == Step(GroupState(yearGroups, currentYear), Read(line))
  {
    var groups, current := yearGroups, currentYear;
    var originalLine := RStripNewlines(line);
    var cleanedLine := Clean(originalLine);
    ReadByDateMatch(line);
    if |cleanedLine| > 0 && cleanedLine[0] == '[' {
      var dateMatch := DateMatch(cleanedLine);
      if dateMatch.Some? {
        var dateStr := Strip(dateMatch.value);
        var year := ExtractYearFromDate(dateStr);
        if year.ValueError? {
          return ValueErrorRaised(year.literal);
        }
        if year.Year? && year.value != 0 {
          current := Some(year.value);
          groups := groups[year.value := GetOrEmpty(groups, year.value) + [originalLine]];
        }
      } else {
        if current.Some? {
          groups := groups[current.value := groups[current.value] + [originalLine]];
        }
      }
    } else {
      if current.Some? {
        groups := groups[current.value := groups[current.value] + [originalLine]];
      }
    }
    r := Ok(GroupState(groups, current));
  }

  /** The line at `i` raises: so does the whole transcript, with its literal. */
  lemma RaiseEndsGrouping(lines: seq<string>, i: nat, lit: string)
    requires i < |lines| && GroupPrefix(ReadAll(lines[..i + 1])) == ValueErrorRaised(lit)
    ensures FirstRaise(ReadAll(lines)) == Some(lit)
  {
    var ls := ReadAll(lines);
    ReadAllPrefix(lines, i + 1);
    assert GroupPrefix(ls[..i + 1]) == ValueErrorRaised(lit);
    RaisePersists(ls, i + 1);
    RaiseIsFirstRaise(ls);
  }

  lemma LoopEnd(ls: seq<Line>, s: GroupState)
    requires GroupPrefix(ls) == Ok(s)
    ensures FirstRaise(ls).None? && s.groups == ReferenceGroups(ls)
  {
    GroupingMatchesReference(ls);
  }

  /** The `startswith('[')` test adds nothing to the regular expression,
      which itself needs a leading `[`: a line is read by the match on its
      cleaned text alone, dated by the year of the stripped group when there
      is one and a continuation otherwise, and stored without its line
      feeds. */
  lemma ReadByDateMatch(line: string)
    ensures Read(line).stored == RStripNewlines(line)
    ensures DateMatch(Clean(RStripNewlines(line))).None? ==> Read(line).kind == Continuation
    ensures DateMatch(Clean(RStripNewlines(line))).Some? ==>
      Read(line).kind == DateKind(ExtractYearFromDate(Strip(DateMatch(Clean(RStripNewlines(line))).value)))
  {
  }
}
