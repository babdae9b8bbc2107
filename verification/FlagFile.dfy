/**
 Flagfiles: files of flags, in sections that may be limited to programs whose name matches
 a glob, and that may include further flagfiles.

 The file system, glob matching and the parsing of one flag are given as functions. What a
 flag does may depend on every flag processed before it, so parsing is told all of them.
 */
module FlagFile {
  import opened Options

  /** What setting one flag comes to. */
  datatype Outcome =
    | Ignored                             // no such flag, no value, or retired
    | Rejected(name: string, why: string) // the value does not parse
    | Accepted
    | Included(files: seq<string>)        // --flagfile, with its value as now set

  datatype Env = Env(files: string -> Option<string>, matches: string -> bool,
                     parse: (seq<string>, string) -> Outcome)

  // ---------------------------------------------------------------------------
  // Lines
  // ---------------------------------------------------------------------------

  datatype Line = Skipped | Flag(text: string) | Names(globs: seq<string>)

  /** Where a character first occurs, or the length. */
  function Find(s: string, c: char): (k: nat)
    ensures k <= |s| && c !in s[..k] && (k < |s| ==> s[k] == c)
  {
    if s == [] || s[0] == c then 0
    else
      var k := Find(s[1..], c) + 1;
      assert s[..k] == [s[0]] + s[1..][..k - 1];
      k
  }

  function Split(s: string, c: char): (parts: seq<string>)
    ensures parts != []
    decreases |s|
  {
    var k := Find(s, c);
    if k == |s| then [s] else [s[..k]] + Split(s[k + 1..], c)
  }

  function Join(parts: seq<string>, c: char): string
    requires parts != []
  {
    if |parts| == 1 then parts[0] else parts[0] + [c] + Join(parts[1..], c)
  }

  /** Splitting is undone by joining, and leaves no separator in a part. */
  lemma SplitJoins(s: string, c: char)
    ensures Join(Split(s, c), c) == s
    ensures forall i :: 0 <= i < |Split(s, c)| ==> c !in Split(s, c)[i]
  {
    JoinOfSplit(s, c);
    PartsAreClean(s, c);
  }

  lemma {:induction false} JoinOfSplit(s: string, c: char)
    ensures Join(Split(s, c), c) == s
    decreases |s|
  {
    var k := Find(s, c);
    if k < |s| {
      var head, rest := s[..k], s[k + 1..];
      JoinOfSplit(rest, c);
      JoinPrepends(head, Split(rest, c), c);
      CutAndPaste(s, k);
    }
  }

  lemma CutAndPaste(s: string, k: nat)
    requires k < |s|
    ensures s[..k] + [s[k]] + s[k + 1..] == s
  {
  }

  lemma {:induction false} PartsAreClean(s: string, c: char)
    ensures forall part :: part in Split(s, c) ==> c !in part
    decreases |s|
  {
    var k := Find(s, c);
    if k < |s| {
      PartsAreClean(s[k + 1..], c);
    } else {
      assert s[..k] == s;
    }
  }

  lemma JoinPrepends(head: string, rest: seq<string>, c: char)
    requires rest != []
    ensures Join([head] + rest, c) == head + [c] + Join(rest, c)
  {
    assert ([head] + rest)[1..] == rest;
  }

  predicate IsSpace(c: char) {
    c == ' ' || 9 as char <= c <= 13 as char
  }

  function StripLeading(s: string): string {
    if s != [] && IsSpace(s[0]) then StripLeading(s[1..]) else s
  }

  /** A flag line without its one or two dashes. */
  function FlagText(line: string): string
    requires line != []
  {
    if |line| > 1 && line[1] == '-' then line[2..] else line[1..]
  }

  function Classify(raw: string): Line {
    var line := StripLeading(raw);
    if line == [] || line[0] == '#' then Skipped
    else if line[0] == '-' then Flag(FlagText(line))
    else Names(Split(line, ' '))
  }

  lemma {:induction false} PaddingIsStripped(pad: string, text: string)
    requires (forall i :: 0 <= i < |pad| ==> IsSpace(pad[i])) && (text == [] || !IsSpace(text[0]))
    ensures StripLeading(pad + text) == text
  {
    if pad == [] {
      assert pad + text == text;
    } else {
      PaddingIsStripped(pad[1..], text);
      assert (pad + text)[0] == pad[0] && (pad + text)[1..] == pad[1..] + text;
    }
  }

  /** What the forms of a line mean, however far they are indented: one dash or two make no difference. */
  lemma LineForms(pad: string, text: string)
    requires forall i :: 0 <= i < |pad| ==> IsSpace(pad[i])
    ensures Classify(pad + ("--" + text)) == Flag(text)
    ensures text == [] || text[0] != '-' ==> Classify(pad + ("-" + text)) == Flag(text)
    ensures Classify(pad) == Skipped && Classify(pad + ("#" + text)) == Skipped
    ensures text != [] && !IsSpace(text[0]) && text[0] !in "#-" ==> Classify(pad + text) == Names(Split(text, ' '))
  {
    PaddingIsStripped(pad, "--" + text);
    PaddingIsStripped(pad, "-" + text);
    PaddingIsStripped(pad, "#" + text);
    PaddingIsStripped(pad, "");
    assert pad + "" == pad;
    assert ("--" + text)[2..] == text && ("-" + text)[1..] == text;
    if text != [] && !IsSpace(text[0]) {
      PaddingIsStripped(pad, text);
    }
  }

  /** A file is read as a C string, so it ends at the first NUL. */
  function Lines(content: string): seq<Line> {
    var text := content[..Find(content, 0 as char)];
    var raw := Split(text, '\n');
    seq(|raw|, i requires 0 <= i < |raw| => Classify(raw[i]))
  }

  // ---------------------------------------------------------------------------
  // Which flag lines apply
  // ---------------------------------------------------------------------------

  ghost predicate NoNames(lines: seq<Line>, lo: int, hi: int) {
    forall k :: 0 <= lo <= k < hi <= |lines| ==> !lines[k].Names?
  }

  ghost predicate NoFlags(lines: seq<Line>, lo: int, hi: int) {
    forall k :: 0 <= lo <= k < hi <= |lines| ==> !lines[k].Flag?
  }

  predicate AnyMatch(env: Env, globs: seq<string>)
    ensures AnyMatch(env, globs) <==> exists i :: 0 <= i < |globs| && env.matches(globs[i])
  {
    globs != [] && (env.matches(globs[0]) || AnyMatch(env, globs[1..]))
  }

  ghost predicate Matches(env: Env, line: Line) {
    line.Names? && AnyMatch(env, line.globs)
  }

  lemma MatchNext(env: Env, word: string)
    ensures var k := Find(word, ' ');
            AnyMatch(env, Split(word, ' ')) <==>
              env.matches(word[..k]) || (k < |word| && AnyMatch(env, Split(word[k + 1..], ' ')))
  {
    var k := Find(word, ' ');
    if k < |word| {
      assert Split(word, ' ')[1..] == Split(word[k + 1..], ' ');
    } else {
      assert word[..k] == word;
      assert Split(word, ' ') == [word];
    }
  }

  /** Line k is the last line of filenames before i. */
  ghost predicate IsLatest(lines: seq<Line>, i: int, k: int) {
    0 <= k < i <= |lines| && lines[k].Names? && NoNames(lines, k + 1, i)
  }

  /** Some line of the run of filename lines that ends at k matches; only a flag ends a run. */
  ghost predicate RunMatches(env: Env, lines: seq<Line>, k: int) {
    exists m :: 0 <= m <= k < |lines| && Matches(env, lines[m]) && NoFlags(lines, m, k)
  }

  /** Flags at i apply: no filenames come before, or the latest run of them matches. */
  ghost predicate Applies(env: Env, lines: seq<Line>, i: int) {
    NoNames(lines, 0, i) || exists k :: IsLatest(lines, i, k) && RunMatches(env, lines, k)
  }

  /** Line i continues a run of filename lines. */
  ghost predicate InRun(lines: seq<Line>, i: int) {
    exists k :: IsLatest(lines, i, k) && NoFlags(lines, k, i)
  }

  /** The flags acted on among the first n lines, in order. */
  ghost function Applied(env: Env, lines: seq<Line>, n: nat): seq<string>
    requires n <= |lines|
  {
    if n == 0 then []
    else
      var before := Applied(env, lines, n - 1);
      if lines[n - 1].Flag? && Applies(env, lines, n - 1) then before + [lines[n - 1].text] else before
  }

  lemma SkippedChangesNothing(env: Env, lines: seq<Line>, i: nat)
    requires i < |lines| && lines[i].Skipped?
    ensures Applies(env, lines, i + 1) <==> Applies(env, lines, i)
    ensures InRun(lines, i + 1) <==> InRun(lines, i)
  {
    forall k ensures IsLatest(lines, i + 1, k) <==> IsLatest(lines, i, k) {
    }
    if InRun(lines, i) {
      var k :| IsLatest(lines, i, k) && NoFlags(lines, k, i);
      assert IsLatest(lines, i + 1, k) && NoFlags(lines, k, i + 1);
    }
    if InRun(lines, i + 1) {
      var k :| IsLatest(lines, i + 1, k) && NoFlags(lines, k, i + 1);
      assert IsLatest(lines, i, k) && NoFlags(lines, k, i);
    }
  }

  lemma FlagEndsRun(env: Env, lines: seq<Line>, i: nat)
    requires i < |lines| && lines[i].Flag?
    ensures Applies(env, lines, i + 1) <==> Applies(env, lines, i)
    ensures !InRun(lines, i + 1)
  {
    forall k ensures IsLatest(lines, i + 1, k) <==> IsLatest(lines, i, k) {
    }
  }

  /** A line of filenames starts over, unless it continues a run. */
  lemma NamesExtendRun(env: Env, lines: seq<Line>, i: nat)
    requires i < |lines| && lines[i].Names?
    ensures InRun(lines, i + 1)
    ensures Applies(env, lines, i + 1) <==> Matches(env, lines[i]) || (InRun(lines, i) && Applies(env, lines, i))
  {
    assert IsLatest(lines, i + 1, i);
    assert Applies(env, lines, i + 1) <==> RunMatches(env, lines, i);
    if InRun(lines, i) {
      var k :| IsLatest(lines, i, k) && NoFlags(lines, k, i);
      assert Applies(env, lines, i) <==> RunMatches(env, lines, k);
      RunGrows(env, lines, k, i);
    } else if RunMatches(env, lines, i) {
      var m :| 0 <= m <= i && Matches(env, lines[m]) && NoFlags(lines, m, i);
      if m < i {
        var k := LatestBefore(lines, m, i);
        assert NoFlags(lines, k, i);
      }
    }
  }

  lemma RunGrows(env: Env, lines: seq<Line>, k: nat, i: nat)
    requires k < i < |lines| && IsLatest(lines, i, k) && NoFlags(lines, k, i)
    ensures RunMatches(env, lines, i) <==> RunMatches(env, lines, k) || Matches(env, lines[i])
  {
    if RunMatches(env, lines, k) {
      var m :| 0 <= m <= k && Matches(env, lines[m]) && NoFlags(lines, m, k);
      assert NoFlags(lines, m, i);
    }
  }

  lemma {:induction false} LatestBefore(lines: seq<Line>, m: nat, i: nat) returns (k: nat)
    requires m < i <= |lines| && lines[m].Names?
    ensures m <= k && IsLatest(lines, i, k)
    decreases i
  {
    if lines[i - 1].Names? {
      k := i - 1;
    } else {
      k := LatestBefore(lines, m, i - 1);
    }
  }

  // ---------------------------------------------------------------------------
  // What processing comes to
  // ---------------------------------------------------------------------------

  const MAX_DEPTH := 100
  const TOO_DEEP := "ERROR: Unbounded --flagfile recursion"
  const NOT_READ := "ERROR: Failed to open flagfile"

  /** Errors by flag or file name, and the flags processed, in order. */
  datatype Record = Record(errors: map<string, string>, acted: seq<string>)

  function WithError(r: Record, name: string, why: string): Record {
    r.(errors := r.errors[name := why])
  }

  /** How many more levels of inclusion fit below a depth. */
  function Room(depth: nat): nat {
    if depth <= MAX_DEPTH then MAX_DEPTH + 1 - depth else 0
  }

  ghost function Content(env: Env, content: string): seq<string> {
    Applied(env, Lines(content), |Lines(content)|)
  }

  ghost function Flags(env: Env, depth: nat, flags: seq<string>, r: Record): Record
    decreases Room(depth), 2, |flags|
  {
    if flags == [] then r
    else Single(env, depth, flags[|flags| - 1], Flags(env, depth, flags[..|flags| - 1], r))
  }

  ghost function Single(env: Env, depth: nat, flag: string, r: Record): Record
    decreases Room(depth), 1, 0
  {
    var now := r.(acted := r.acted + [flag]);
    match env.parse(r.acted, flag)
    case Ignored => now
    case Rejected(name, why) => WithError(now, name, why)
    case Accepted => now
    case Included(files) => Include(env, depth, files, now)
  }

  ghost function Include(env: Env, depth: nat, names: seq<string>, r: Record): Record
    decreases Room(depth), 0, 0
  {
    if names == [] then r
    else if depth > MAX_DEPTH then WithError(r, "flagfile", TOO_DEEP)
    else Files(env, depth + 1, names, r)
  }

  ghost function Files(env: Env, depth: nat, names: seq<string>, r: Record): Record
    decreases Room(depth), 3, |names|
  {
    if names == [] then r
    else
      var before, name := Files(env, depth, names[..|names| - 1], r), names[|names| - 1];
      match env.files(name)
      case None => WithError(before, name, NOT_READ)
      case Some(content) => Flags(env, depth, Content(env, content), before)
  }

  lemma AtFirst(env: Env, lines: seq<Line>)
    ensures Applies(env, lines, 0) && !InRun(lines, 0)
  {
  }

  lemma AppliedNext(env: Env, depth: nat, lines: seq<Line>, i: nat, r: Record)
    requires i < |lines|
    ensures Flags(env, depth, Applied(env, lines, i + 1), r)
            == if lines[i].Flag? && Applies(env, lines, i)
               then Single(env, depth, lines[i].text, Flags(env, depth, Applied(env, lines, i), r))
               else Flags(env, depth, Applied(env, lines, i), r)
  {
    var before := Applied(env, lines, i);
    if lines[i].Flag? && Applies(env, lines, i) {
      assert (before + [lines[i].text])[..|before|] == before;
    }
  }

  // ---------------------------------------------------------------------------
  // Inclusion that goes round in a circle
  // ---------------------------------------------------------------------------

  ghost predicate Keeps(r: Record, r': Record) {
    r.errors.Keys <= r'.errors.Keys
  }

  lemma {:induction false} FlagsKeep(env: Env, depth: nat, flags: seq<string>, r: Record)
    ensures Keeps(r, Flags(env, depth, flags, r))
    decreases Room(depth), 2, |flags|
  {
    if flags != [] {
      FlagsKeep(env, depth, flags[..|flags| - 1], r);
      SingleKeeps(env, depth, flags[|flags| - 1], Flags(env, depth, flags[..|flags| - 1], r));
    }
  }

  lemma {:induction false} SingleKeeps(env: Env, depth: nat, flag: string, r: Record)
    ensures Keeps(r, Single(env, depth, flag, r))
    decreases Room(depth), 1, 0
  {
    var outcome := env.parse(r.acted, flag);
    if outcome.Included? && outcome.files != [] && depth <= MAX_DEPTH {
      FilesKeep(env, depth + 1, outcome.files, r.(acted := r.acted + [flag]));
    }
  }

  lemma {:induction false} FilesKeep(env: Env, depth: nat, names: seq<string>, r: Record)
    ensures Keeps(r, Files(env, depth, names, r))
    decreases Room(depth), 3, |names|
  {
    if names != [] {
      var less, name := names[..|names| - 1], names[|names| - 1];
      FilesKeep(env, depth, less, r);
      if env.files(name).Some? {
        FlagsKeep(env, depth, Content(env, env.files(name).value), Files(env, depth, less, r));
      }
    }
  }

  /** Whatever came before, this flag includes a file of the circle. */
  ghost predicate LeadsBack(env: Env, circle: set<string>, flag: string) {
    forall acted :: env.parse(acted, flag).Included?
                    && exists name :: name in env.parse(acted, flag).files && name in circle
  }

  /** Every file of the circle can be read and acts on a flag that includes one of the circle. */
  ghost predicate IsCircle(env: Env, circle: set<string>) {
    forall name :: name in circle ==>
      && env.files(name).Some?
      && exists flag :: flag in Content(env, env.files(name).value) && LeadsBack(env, circle, flag)
  }

  /** Files that include each other in a circle are reported, from whatever depth they are read. */
  lemma {:induction false} CircleIsReported(env: Env, circle: set<string>, depth: nat,
                                            names: seq<string>, name: string, r: Record)
    requires IsCircle(env, circle) && name in circle && name in names
    ensures "flagfile" in Include(env, depth, names, r).errors
    decreases Room(depth), 0, 0
  {
    if depth <= MAX_DEPTH {
      FileReports(env, circle, depth + 1, names, name, r);
    }
  }

  lemma {:induction false} FileReports(env: Env, circle: set<string>, depth: nat,
                                       names: seq<string>, name: string, r: Record)
    requires IsCircle(env, circle) && name in circle && name in names
    ensures "flagfile" in Files(env, depth, names, r).errors
    decreases Room(depth), 3, |names|
  {
    var less, last := names[..|names| - 1], names[|names| - 1];
    var before := Files(env, depth, less, r);
    if last == name {
      var flags := Content(env, env.files(name).value);
      var flag :| flag in flags && LeadsBack(env, circle, flag);
      FlagReports(env, circle, depth, flags, flag, before);
    } else {
      assert name in less by {
        var i :| 0 <= i < |names| && names[i] == name;
        assert less[i] == name;
      }
      FileReports(env, circle, depth, less, name, r);
      if env.files(last).Some? {
        FlagsKeep(env, depth, Content(env, env.files(last).value), before);
      }
    }
  }

  lemma {:induction false} FlagReports(env: Env, circle: set<string>, depth: nat,
                                       flags: seq<string>, flag: string, r: Record)
    requires IsCircle(env, circle) && flag in flags && LeadsBack(env, circle, flag)
    ensures "flagfile" in Flags(env, depth, flags, r).errors
    decreases Room(depth), 2, |flags|
  {
    var less, last := flags[..|flags| - 1], flags[|flags| - 1];
    var before := Flags(env, depth, less, r);
    if last == flag {
      var outcome := env.parse(before.acted, flag);
      assert outcome.Included?;
      var name :| name in outcome.files && name in circle;
      CircleIsReported(env, circle, depth, outcome.files, name, before.(acted := before.acted + [flag]));
    } else {
      assert flag in less by {
        var i :| 0 <= i < |flags| && flags[i] == flag;
        assert less[i] == flag;
      }
      FlagReports(env, circle, depth, less, flag, r);
      SingleKeeps(env, depth, last, before);
    }
  }

  // ---------------------------------------------------------------------------
  // The parser
  // ---------------------------------------------------------------------------

  class FlagParser {
    const env: Env
    var depth: nat
    var record: Record

    constructor (env: Env)
      ensures this.env == env && depth == 0 && record == Record(map[], [])
    {
      this.env := env;
      depth := 0;
      record := Record(map[], []);
    }

    /** Cuts a line at single spaces and stops at the first glob that matches. */
    method AnyGlobMatches(line: string) returns (found: bool)
      ensures found <==> AnyMatch(env, Split(line, ' '))
    {
      found := false;
      var word, last := line, false;
      while !last && !found
        invariant AnyMatch(env, Split(line, ' ')) <==> found || (!last && AnyMatch(env, Split(word, ' ')))
        decreases if last then 0 else 1, |word|, if found then 0 else 1
      {
        MatchNext(env, word);
        var space := Find(word, ' ');
        found := env.matches(word[..space]);
        if space == |word| {
          last := true;
        } else {
          word := word[space + 1..];
        }
      }
    }

    /** A line of filenames starts over unless it continues a run of them. */
    method ProcessNames(line: string, inNames: bool, wasRelevant: bool) returns (relevant: bool)
      ensures relevant <==> AnyMatch(env, Split(line, ' ')) || (inNames && wasRelevant)
    {
      relevant := inNames && wasRelevant;
      if !relevant {
        relevant := AnyGlobMatches(line);
      }
    }

    method ProcessFlagfile(names: seq<string>)
      modifies this
      ensures depth == old(depth)
      ensures record == Include(env, depth, names, old(record))
      decreases Room(depth), 0, 0
    {
      if |names| == 0 {
        return;
      }
      if depth > MAX_DEPTH {
        record := WithError(record, "flagfile", TOO_DEEP);
        return;
      }
      depth := depth + 1;
      var i := 0;
      while i < |names|
        invariant 0 <= i <= |names| && depth == old(depth) + 1
        invariant record == Files(env, depth, names[..i], old(record))
      {
        assert names[..i + 1][..i] == names[..i];
        var content := env.files(names[i]);
        if content == None {
          record := WithError(record, names[i], NOT_READ);
        } else {
          ProcessOptionsFromString(content.value);
        }
        i := i + 1;
      }
      assert names[..i] == names;
      depth := depth - 1;
    }

    method ProcessSingleOption(flag: string)
      modifies this
      ensures depth == old(depth)
      ensures record == Single(env, depth, flag, old(record))
      decreases Room(depth), 1, 0
    {
      var outcome := env.parse(record.acted, flag);
      record := record.(acted := record.acted + [flag]);
      match outcome
      case Ignored =>
      case Rejected(name, why) => record := WithError(record, name, why);
      case Accepted =>
      case Included(files) => ProcessFlagfile(files);
    }

    /** One line of a file: what it does to the automaton, and the flag it sets, if any. */
    method ProcessLine(raw: string, relevant: bool, inNames: bool, ghost lines: seq<Line>, ghost i: nat)
      returns (nowRelevant: bool, nowInNames: bool)
      requires i < |lines| && lines[i] == Classify(raw)
      requires relevant == Applies(env, lines, i) && inNames == InRun(lines, i)
      modifies this
      ensures depth == old(depth)
      ensures nowRelevant == Applies(env, lines, i + 1) && nowInNames == InRun(lines, i + 1)
      ensures record == if lines[i].Flag? && Applies(env, lines, i) then Single(env, depth, lines[i].text, old(record))
                        else old(record)
      decreases Room(depth), 2, 0
    {
      nowRelevant, nowInNames := relevant, inNames;
      var line := StripLeading(raw);
      if line == [] || line[0] == '#' {
        SkippedChangesNothing(env, lines, i);
      } else if line[0] == '-' {
        FlagEndsRun(env, lines, i);
        nowInNames := false;
        if relevant {
          ProcessSingleOption(FlagText(line));
        }
      } else {
        NamesExtendRun(env, lines, i);
        nowRelevant := ProcessNames(line, inNames, relevant);
        nowInNames := true;
      }
    }

    /** The line automaton acts on exactly the flags that apply, in order. */
    method ProcessOptionsFromString(content: string)
      modifies this
      ensures depth == old(depth)
      ensures record == Flags(env, depth, Content(env, content), old(record))
      decreases Room(depth), 2, 1
    {
      var text := content[..Find(content, 0 as char)];
      var raw := Split(text, '\n');
      ghost var lines := Lines(content);
      var relevant, inNames := true, false;
      AtFirst(env, lines);
      var i := 0;
      while i < |raw|
        invariant 0 <= i <= |raw| == |lines| && depth == old(depth)
        invariant relevant == Applies(env, lines, i) && inNames == InRun(lines, i)
        invariant record == Flags(env, depth, Applied(env, lines, i), old(record))
      {
        AppliedNext(env, depth, lines, i, old(record));
        assert lines[i] == Classify(raw[i]);
        relevant, inNames := ProcessLine(raw[i], relevant, inNames, lines, i);
        i := i + 1;
      }
    }
  }
}
