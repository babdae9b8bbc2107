/**
 What ParseCommandLineFlagsInternal does to argv once the flags have been parsed. The
 parser hands back the positional arguments, which are pointers taken from argv in order,
 the program name first; argv is then rewritten in place.
 */
module ArgvRewrite {

  type Pointer = nat

  /** Strictly increasing positions below n. */
  ghost predicate Increasing(picked: seq<nat>, n: nat) {
    && (forall j :: 0 <= j < |picked| ==> picked[j] < n)
    && (forall j, k :: 0 <= j < k < |picked| ==> picked[j] < picked[k])
  }

  /** What the parser takes out of argv: some arguments in order, starting with the program name. */
  ghost predicate IsSelection(picked: seq<nat>, n: nat) {
    picked != [] && picked[0] == 0 && Increasing(picked, n)
  }

  function Pick(args: seq<Pointer>, picked: seq<nat>): seq<Pointer>
    requires forall j :: 0 <= j < |picked| ==> picked[j] < |args|
  {
    seq(|picked|, j requires 0 <= j < |picked| => args[picked[j]])
  }

  /** The arguments whose pointers are in a set, or are not, in their order. */
  function Filter(args: seq<Pointer>, s: set<Pointer>, wanted: bool): seq<Pointer> {
    if args == [] then []
    else
      var rest, last := Filter(args[..|args| - 1], s, wanted), args[|args| - 1];
      if (last in s) == wanted then rest + [last] else rest
  }

  /** No argument outside the selection shares its pointer with one inside. */
  ghost predicate Unshared(args: seq<Pointer>, picked: seq<nat>, s: set<Pointer>) {
    forall i :: 0 <= i < |args| && args[i] in s ==> i in picked
  }

  // ---------------------------------------------------------------------------
  // Filtering is a stable partition
  // ---------------------------------------------------------------------------

  lemma {:induction false} FilterPartitions(args: seq<Pointer>, s: set<Pointer>)
    ensures |Filter(args, s, true)| + |Filter(args, s, false)| == |args|
    ensures multiset(Filter(args, s, true)) + multiset(Filter(args, s, false)) == multiset(args)
  {
    if args != [] {
      FilterPartitions(args[..|args| - 1], s);
      assert args == args[..|args| - 1] + [args[|args| - 1]];
    }
  }

  lemma FilterNext(args: seq<Pointer>, s: set<Pointer>, wanted: bool, n: nat)
    requires n < |args|
    ensures Filter(args[..n + 1], s, wanted)
            == Filter(args[..n], s, wanted) + if (args[n] in s) == wanted then [args[n]] else []
  {
    assert args[..n + 1][..n] == args[..n];
  }

  /** Where a filtered argument came from: positions that only grow. */
  lemma {:induction false} FilterIsStable(args: seq<Pointer>, s: set<Pointer>, wanted: bool) returns (from: seq<nat>)
    ensures Increasing(from, |args|)
    ensures forall j :: 0 <= j < |from| ==> ((args[from[j]] in s) == wanted)
    ensures Filter(args, s, wanted) == Pick(args, from)
  {
    if args == [] {
      from := [];
    } else {
      var low, last := args[..|args| - 1], args[|args| - 1];
      from := FilterIsStable(low, s, wanted);
      assert Pick(args, from) == Pick(low, from);
      if (last in s) == wanted {
        from := from + [|args| - 1];
        assert Pick(args, from) == Filter(low, s, wanted) + [last];
      }
    }
  }

  /**
   A selection into a set is no longer than all that is in the set, and is all of it exactly
   if nothing outside the selection is.
   */
  lemma {:induction false} SelectionAgainstFilter(args: seq<Pointer>, picked: seq<nat>, s: set<Pointer>)
    requires Increasing(picked, |args|)
    requires forall j :: 0 <= j < |picked| ==> args[picked[j]] in s
    ensures |picked| <= |Filter(args, s, true)|
    ensures |picked| == |Filter(args, s, true)| <==> Unshared(args, picked, s)
    ensures Unshared(args, picked, s) ==> Filter(args, s, true) == Pick(args, picked)
    decreases |args|
  {
    if args != [] {
      var n := |args| - 1;
      var low := args[..n];
      if picked != [] && picked[|picked| - 1] == n {
        var less := picked[..|picked| - 1];
        SelectionAgainstFilter(low, less, s);
        SharedLast(args, picked, s);
        assert Pick(args, picked) == Pick(low, less) + [args[n]];
      } else {
        SelectionAgainstFilter(low, picked, s);
        assert n !in picked;
        assert args[n] !in s ==> (Unshared(args, picked, s) <==> Unshared(low, picked, s));
        assert args[n] in s ==> !Unshared(args, picked, s);
        assert Pick(args, picked) == Pick(low, picked);
      }
    }
  }

  lemma SharedLast(args: seq<Pointer>, picked: seq<nat>, s: set<Pointer>)
    requires args != [] && picked != [] && Increasing(picked, |args|) && picked[|picked| - 1] == |args| - 1
    ensures Unshared(args, picked, s) <==> Unshared(args[..|args| - 1], picked[..|picked| - 1], s)
  {
    var n, less := |args| - 1, picked[..|picked| - 1];
    assert picked == less + [n];
    forall i | 0 <= i < n ensures i in picked <==> i in less {
    }
  }

  /** argv after the rewrite: program name, flags, positional arguments. */
  function Rewritten(args: seq<Pointer>, positional: seq<Pointer>, s: set<Pointer>): seq<Pointer>
    requires args != [] && positional != []
  {
    [args[0]] + Filter(args, s, false) + positional[1..]
  }

  function Elements(p: seq<Pointer>): set<Pointer> {
    set x | x in p
  }

  /**
   The rewrite keeps every argument exactly if no argument outside the selection shares its
   pointer with one inside; then it is a stable partition of argv.
   */
  lemma KeepsAllIffUnshared(args: seq<Pointer>, picked: seq<nat>)
    requires IsSelection(picked, |args|)
    ensures var positional := Pick(args, picked);
            var s := Elements(positional);
            var now := Rewritten(args, positional, s);
            && |now| <= |args|
            && (|now| == |args| <==> Unshared(args, picked, s))
            && (multiset(now) == multiset(args) <==> Unshared(args, picked, s))
            && (Unshared(args, picked, s) ==> positional == Filter(args, s, true))
  {
    var positional := Pick(args, picked);
    var s := Elements(positional);
    var now := Rewritten(args, positional, s);
    forall j | 0 <= j < |picked| ensures args[picked[j]] in s {
      assert positional[j] == args[picked[j]];
    }
    SelectionAgainstFilter(args, picked, s);
    FilterPartitions(args, s);
    assert positional == [args[0]] + positional[1..];
    assert multiset(now) == multiset(positional) + multiset(Filter(args, s, false));
    assert |multiset(now)| == |now| && |multiset(args)| == |args|;
  }

  /** A flag argument that shares its pointer with a positional one is dropped. */
  lemma SharedPointerIsLost(name: Pointer, twice: Pointer)
    requires name != twice
    ensures var args, picked := [name, twice, twice], [0, 2];
            && IsSelection(picked, |args|)
            && Rewritten(args, Pick(args, picked), Elements(Pick(args, picked))) == [name, twice]
  {
    var args, picked := [name, twice, twice], [0, 2];
    var positional := Pick(args, picked);
    assert positional == [name, twice];
    var s := Elements(positional);
    assert args[..0] == [] && args[..1] == [name] && args[..2] == [name, twice] && args[..3] == args;
    FilterNext(args, s, false, 0);
    FilterNext(args, s, false, 1);
    FilterNext(args, s, false, 2);
  }

  // ---------------------------------------------------------------------------
  // The rewrite in place
  // ---------------------------------------------------------------------------

  /** std::copy of a vector into an array. */
  method CopyInto(argv: array<Pointer>, at: nat, what: seq<Pointer>)
    requires at + |what| <= argv.Length
    modifies argv
    ensures argv[at..at + |what|] == what
    ensures forall k :: 0 <= k < at || at + |what| <= k < argv.Length ==> argv[k] == old(argv[k])
  {
    var i := 0;
    while i < |what|
      invariant 0 <= i <= |what|
      invariant forall k :: 0 <= k < i ==> argv[at + k] == what[k]
      invariant forall k :: 0 <= k < at || at + i <= k < argv.Length ==> argv[k] == old(argv[k])
    {
      argv[at + i] := what[i];
      i := i + 1;
    }
    forall k | 0 <= k < |what| ensures argv[at..at + |what|][k] == what[k] {
      assert argv[at + k] == what[k];
    }
  }

  /** Moves the arguments outside the set to the front, behind the program name. */
  method CompactFlags(argv: array<Pointer>, argc: nat, s: set<Pointer>) returns (outPos: nat)
    requires 0 < argc <= argv.Length && argv[0] in s
    modifies argv
    ensures 1 <= outPos <= argc
    ensures argv[..outPos] == [old(argv[0])] + Filter(old(argv[..argc]), s, false)
    ensures forall k :: outPos <= k < argv.Length ==> argv[k] == old(argv[k])
  {
    ghost var args := argv[..argc];
    outPos := 1;
    var inPos := 0;
    while inPos < argc
      invariant 0 <= inPos <= argc && 1 <= outPos && (if inPos == 0 then outPos == 1 else outPos <= inPos)
      invariant outPos == 1 + |Filter(args[..inPos], s, false)|
      invariant argv[..outPos] == [args[0]] + Filter(args[..inPos], s, false)
      // no slot is overwritten before it has been read
      invariant forall k :: outPos <= k < argv.Length ==> argv[k] == old(argv[k])
      invariant inPos == 0 ==> forall k :: 0 <= k < argv.Length ==> argv[k] == old(argv[k])
    {
      FilterNext(args, s, false, inPos);
      assert argv[inPos] == args[inPos];
      ghost var done := argv[..outPos];
      if argv[inPos] !in s {
        argv[outPos] := argv[inPos];
        assert argv[..outPos] == done;
        assert argv[..outPos + 1] == done + [args[inPos]];
        outPos := outPos + 1;
      }
      inPos := inPos + 1;
    }
    assert args[..argc] == args;
  }

  /**
   With the flags kept: argv becomes the program name, the flags and the positional
   arguments, and the result is where the latter begin.
   */
  method KeepFlags(argv: array<Pointer>, argc: nat, positional: seq<Pointer>, ghost picked: seq<nat>)
    returns (result: nat, newArgc: nat)
    requires argc <= argv.Length && IsSelection(picked, argc) && positional == Pick(argv[..argc], picked)
    modifies argv
    ensures newArgc <= argc && newArgc == result + |positional| - 1
    ensures argv[..newArgc] == Rewritten(old(argv[..argc]), positional, Elements(positional))
    ensures argv[result..newArgc] == positional[1..]
    ensures newArgc == argc <==> Unshared(old(argv[..argc]), picked, Elements(positional))
    ensures newArgc == argc ==> multiset(argv[..newArgc]) == multiset(old(argv[..argc]))
    ensures forall k :: argc <= k < argv.Length ==> argv[k] == old(argv[k])
  {
    RewrittenFits(argv[..argc], picked, positional, Elements(positional));
    result, newArgc := PutBack(argv, argc, positional, Elements(positional));
  }

  /** Flags to the front, positional arguments behind them. */
  method PutBack(argv: array<Pointer>, argc: nat, positional: seq<Pointer>, s: set<Pointer>)
    returns (result: nat, newArgc: nat)
    requires 0 < argc <= argv.Length && argv[0] in s && positional != []
    requires |Rewritten(argv[..argc], positional, s)| <= argc
    modifies argv
    ensures newArgc <= argc && newArgc == result + |positional| - 1
    ensures argv[..newArgc] == Rewritten(old(argv[..argc]), positional, s)
    ensures argv[result..newArgc] == positional[1..]
    ensures forall k :: argc <= k < argv.Length ==> argv[k] == old(argv[k])
  {
    result := CompactFlags(argv, argc, s);
    ghost var front := argv[..result];
    CopyInto(argv, result, positional[1..]);
    newArgc := result + |positional| - 1;
    assert argv[..result] == front;
    assert argv[..newArgc] == argv[..result] + argv[result..newArgc];
  }

  /** The facts about the rewritten vector that the rewrite in place needs. */
  lemma RewrittenFits(args: seq<Pointer>, picked: seq<nat>, positional: seq<Pointer>, s: set<Pointer>)
    requires IsSelection(picked, |args|) && positional == Pick(args, picked) && s == Elements(positional)
    ensures positional != [] && positional[0] == args[0] && args[0] in s
    ensures var now := Rewritten(args, positional, s);
            && |now| <= |args| && (|now| == |args| <==> Unshared(args, picked, s))
            && (|now| == |args| ==> multiset(now) == multiset(args))
  {
    KeepsAllIffUnshared(args, picked);
    assert positional[0] == args[picked[0]];
  }

  /**
   With the flags removed: the positional arguments are moved to the end of argv, which then
   begins at an offset, so that whatever followed argv still does.
   */
  method RemoveFlags(argv: array<Pointer>, argc: nat, positional: seq<Pointer>, ghost picked: seq<nat>)
    returns (result: nat, offset: nat, newArgc: nat)
    requires argc <= argv.Length && IsSelection(picked, argc) && positional == Pick(argv[..argc], picked)
    modifies argv
    ensures result == 1 && offset + newArgc == argc && newArgc == |positional|
    ensures argv[offset..argc] == positional && argv[offset] == old(argv[0])
    ensures forall k :: 0 <= k < offset || argc <= k < argv.Length ==> argv[k] == old(argv[k])
  {
    ghost var args := argv[..argc];
    SelectionIsShort(picked, argc);
    offset := argc - |positional|;
    CopyInto(argv, offset, positional);
    newArgc := |positional|;
    result := 1;
    assert argv[offset] == argv[offset..argc][0];
    assert positional[0] == args[0];
  }

  lemma {:induction false} SelectionIsShort(picked: seq<nat>, n: nat)
    requires Increasing(picked, n)
    ensures |picked| <= n
    decreases |picked|
  {
    if picked != [] {
      SelectionIsShort(picked[..|picked| - 1], picked[|picked| - 1]);
    }
  }
}
