/** Command-line flag extraction (Program.cs:13-29, 132-176): each extractor removes what it
    recognises from one shared, mutable list of arguments. */
module Arguments {

  datatype Option<T> = None | Some(value: T)

  /** The `List<string>` of arguments that `Main` builds with `args.ToList()`. */
  class ArgList {
    var items: seq<string>

    constructor (args: seq<string>)
      ensures items == args
    {
      items := args;
    }

    /** `List.RemoveAt(i)`. */
    method RemoveAt(i: nat)
      requires i < |items|
      modifies this
      ensures items == old(items[..i] + items[i + 1..])
    {
      items := items[..i] + items[i + 1..];
    }
  }

  /** What an extractor found, and the arguments it left in the list. */
  datatype Extracted<V, A> = Extracted(value: V, rest: seq<A>)

  /** The list after removing the first occurrence of `x`, if any. */
  function RemoveFirst<A(==)>(s: seq<A>, x: A): (r: seq<A>)
    ensures x !in s ==> r == s
    ensures x in s ==> |r| == |s| - 1 && multiset(r) + multiset{x} == multiset(s)
  {
    if s == [] then []
    else if s[0] == x then
      assert s == [s[0]] + s[1..];
      s[1..]
    else
      assert s == [s[0]] + s[1..];
      [s[0]] + RemoveFirst(s[1..], x)
  }

  /** Removing the first occurrence, at index `i`, keeps every other element in its order. */
  lemma {:induction false} RemoveFirstAt<A>(s: seq<A>, x: A, i: nat)
    requires i < |s| && s[i] == x && x !in s[..i]
    ensures RemoveFirst(s, x) == s[..i] + s[i + 1..]
  {
    if i > 0 {
      assert s[1..][..i - 1] == s[..i][1..];
      RemoveFirstAt(s[1..], x, i - 1);
      assert s[..i] == [s[0]] + s[1..][..i - 1];
    }
  }

  /** Program.cs `ExtractBoolFlag`: removes the first occurrence of `flag` and reports whether
      there was one. */
  method ExtractBoolFlag(args: ArgList, flag: string) returns (found: bool)
    modifies args
    ensures found <==> flag in old(args.items)
    ensures args.items == RemoveFirst(old(args.items), flag)
  {
    var i := 0;
    while i < |args.items|
      invariant i <= |args.items|
      invariant args.items == old(args.items)
      invariant flag !in args.items[..i]
    {
      if args.items[i] == flag {
        RemoveFirstAt(args.items, flag, i);
        args.RemoveAt(i);
        return true;
      }
      assert args.items[..i + 1] == args.items[..i] + [args.items[i]];
      i := i + 1;
    }
    assert args.items[..i] == args.items;
    return false;
  }

  /** Index `i` holds `flag` and the next argument parses as an integer. */
  predicate IntFlagAt<A(==)>(s: seq<A>, flag: A, tryParse: A -> Option<int>, i: int) {
    0 <= i < |s| - 1 && s[i] == flag && tryParse(s[i + 1]).Some?
  }

  /** What `ExtractIntFlag` finds: the first `flag` followed by a parsable value; both are
      removed. `tryParse` stands for `int.TryParse`. */
  function IntFlag<A(==)>(s: seq<A>, flag: A, tryParse: A -> Option<int>): (r: Extracted<Option<int>, A>)
    ensures r.value.None? ==> r.rest == s
    ensures r.value.Some? ==> |r.rest| == |s| - 2
  {
    if |s| < 2 then Extracted(None, s)
    else if s[0] == flag && tryParse(s[1]).Some? then
      Extracted(tryParse(s[1]), s[2..])
    else
      var r := IntFlag(s[1..], flag, tryParse);
      Extracted(r.value, [s[0]] + r.rest)
  }

  /** `ExtractIntFlag` finds nothing exactly when no index qualifies. */
  lemma {:induction false} IntFlagNoneIff<A>(s: seq<A>, flag: A, tryParse: A -> Option<int>)
    ensures IntFlag(s, flag, tryParse).value.None?
            <==> forall i | 0 <= i < |s| :: !IntFlagAt(s, flag, tryParse, i)
  {
    if |s| >= 2 {
      if s[0] == flag && tryParse(s[1]).Some? {
        assert IntFlagAt(s, flag, tryParse, 0);
      } else {
        IntFlagNoneIff(s[1..], flag, tryParse);
        IntFlagAtTail(s, flag, tryParse);
      }
    }
  }

  /** Past the first argument, the qualifying indices of `s` are those of `s[1..]`, shifted. */
  lemma IntFlagAtTail<A>(s: seq<A>, flag: A, tryParse: A -> Option<int>)
    requires |s| >= 2 && !IntFlagAt(s, flag, tryParse, 0)
    ensures (forall i | 0 <= i < |s| :: !IntFlagAt(s, flag, tryParse, i))
            <==> (forall i | 0 <= i < |s| - 1 :: !IntFlagAt(s[1..], flag, tryParse, i))
  {
    forall i | 0 <= i < |s| - 1
      ensures IntFlagAt(s[1..], flag, tryParse, i) == IntFlagAt(s, flag, tryParse, i + 1)
    {
    }
    if exists i | 0 <= i < |s| :: IntFlagAt(s, flag, tryParse, i) {
      var i :| 0 <= i < |s| && IntFlagAt(s, flag, tryParse, i);
      assert IntFlagAt(s[1..], flag, tryParse, i - 1);
    }
  }

  /** Only the first qualifying occurrence, at index `i`, is taken: its value is returned and
      the flag and the value are removed, the other arguments keeping their order. */
  lemma {:induction false} IntFlagFirst<A>(s: seq<A>, flag: A, tryParse: A -> Option<int>, i: nat)
    requires IntFlagAt(s, flag, tryParse, i)
    requires forall j | 0 <= j < i :: !IntFlagAt(s, flag, tryParse, j)
    ensures IntFlag(s, flag, tryParse) == Extracted(tryParse(s[i + 1]), s[..i] + s[i + 2..])
  {
    if i > 0 {
      assert !IntFlagAt(s, flag, tryParse, 0);
      forall j | 0 <= j < i - 1 ensures !IntFlagAt(s[1..], flag, tryParse, j) {
        assert !IntFlagAt(s, flag, tryParse, j + 1);
      }
      IntFlagFirst(s[1..], flag, tryParse, i - 1);
      assert s[..i] == [s[0]] + s[1..][..i - 1];
    }
  }

  /** Program.cs `ExtractIntFlag`. */
  method ExtractIntFlag(args: ArgList, flag: string, tryParse: string -> Option<int>)
    returns (value: Option<int>)
    modifies args
    ensures value == IntFlag(old(args.items), flag, tryParse).value
    ensures args.items == IntFlag(old(args.items), flag, tryParse).rest
  {
    var i := 0;
    while i < |args.items| - 1
      invariant 0 <= i
      invariant args.items == old(args.items)
      invariant forall j | 0 <= j < i :: !IntFlagAt(args.items, flag, tryParse, j)
    {
      if args.items[i] == flag && tryParse(args.items[i + 1]).Some? {
        value := tryParse(args.items[i + 1]);
        IntFlagFirst(args.items, flag, tryParse, i);
        assert args.items[..i] + args.items[i + 1..][1..] == args.items[..i] + args.items[i + 2..];
        args.RemoveAt(i);
        args.RemoveAt(i);
        return;
      }
      i := i + 1;
    }
    IntFlagNoneIff(args.items, flag, tryParse);
    return None;
  }

  /** What `ExtractStringFlags` finds: every argument that follows an occurrence of `flag`, in
      order; each such pair is removed. */
  function StringFlags<A(==)>(s: seq<A>, flag: A): (r: Extracted<seq<A>, A>)
    ensures |r.rest| == |s| - 2 * |r.value|
  {
    if |s| < 2 then Extracted([], s)
    else if s[0] == flag then
      var r := StringFlags(s[2..], flag);
      Extracted([s[1]] + r.value, r.rest)
    else
      var r := StringFlags(s[1..], flag);
      Extracted(r.value, [s[0]] + r.rest)
  }

  /** Without any `flag` the list is left as it is and nothing is found. */
  lemma {:induction false} StringFlagsWithoutFlag<A>(s: seq<A>, flag: A)
    requires flag !in s
    ensures StringFlags(s, flag) == Extracted([], s)
  {
    if |s| >= 2 {
      assert flag !in s[1..];
      StringFlagsWithoutFlag(s[1..], flag);
      assert [s[0]] + s[1..] == s;
    }
  }

  /** The first `flag` takes the argument after it as the first value; the arguments before it
      stay in front, in order, and the extraction carries on after the pair. */
  lemma {:induction false} StringFlagsFirst<A>(a: seq<A>, flag: A, v: A, b: seq<A>)
    requires flag !in a
    ensures StringFlags(a + [flag, v] + b, flag)
            == Extracted([v] + StringFlags(b, flag).value, a + StringFlags(b, flag).rest)
  {
    var s := a + [flag, v] + b;
    if a == [] {
      assert s[2..] == b;
    } else {
      assert s[1..] == a[1..] + [flag, v] + b;
      StringFlagsFirst(a[1..], flag, v, b);
      assert a == [a[0]] + a[1..];
      SeqAssoc([a[0]], a[1..], StringFlags(b, flag).rest);
    }
  }

  /** No argument before the last one is `flag`. */
  predicate NoFlagBeforeLast<A(==)>(rest: seq<A>, flag: A) {
    forall j | 0 <= j < |rest| - 1 :: rest[j] != flag
  }

  /** No `flag` is left anywhere before the last position: every one that had an argument
      after it was taken. */
  lemma {:induction false} StringFlagsLeaveNoPair<A>(s: seq<A>, flag: A)
    ensures NoFlagBeforeLast(StringFlags(s, flag).rest, flag)
  {
    if |s| >= 2 {
      if s[0] == flag {
        StringFlagsLeaveNoPair(s[2..], flag);
      } else {
        var next := StringFlags(s[1..], flag).rest;
        StringFlagsLeaveNoPair(s[1..], flag);
        var rest := StringFlags(s, flag).rest;
        assert rest == [s[0]] + next;
        forall j | 0 < j < |rest| - 1 ensures rest[j] != flag {
          assert rest[j] == next[j - 1];
        }
      }
    }
  }

  /** A flag in the last position, with no value after it, stays in the list (unless the
      extraction took it as the value of the flag before it). */
  lemma {:induction false} TrailingFlagStays<A>(s: seq<A>, flag: A)
    requires |s| > 0 && s[|s| - 1] == flag
    ensures var r := StringFlags(s, flag);
            (|r.rest| > 0 && r.rest[|r.rest| - 1] == flag) || (|r.value| > 0 && r.value[|r.value| - 1] == flag)
  {
    if |s| >= 2 {
      if s[0] == flag {
        var next := StringFlags(s[2..], flag);
        assert StringFlags(s, flag) == Extracted([s[1]] + next.value, next.rest);
        if |s| == 2 {
          assert next == Extracted([], []);
        } else {
          assert s[2..][|s[2..]| - 1] == flag;
          TrailingFlagStays(s[2..], flag);
        }
      } else {
        var next := StringFlags(s[1..], flag);
        assert StringFlags(s, flag) == Extracted(next.value, [s[0]] + next.rest);
        assert s[1..][|s[1..]| - 1] == flag;
        TrailingFlagStays(s[1..], flag);
      }
    }
  }

  /** Program.cs `ExtractStringFlags`. */
  method ExtractStringFlags(args: ArgList, flag: string) returns (values: seq<string>)
    modifies args
    ensures values == StringFlags(old(args.items), flag).value
    ensures args.items == StringFlags(old(args.items), flag).rest
  {
    ghost var whole := StringFlags(args.items, flag);
    values := [];
    var i := 0;
    assert args.items[i..] == args.items && args.items[..i] == [];
    while i < |args.items| - 1
      invariant 0 <= i <= |args.items|
      invariant whole.value == values + StringFlags(args.items[i..], flag).value
      invariant whole.rest == args.items[..i] + StringFlags(args.items[i..], flag).rest
      decreases |args.items| - i
    {
      ghost var before := args.items;
      if args.items[i] == flag {
        FlagStep(before, i, flag, values);
        values := values + [args.items[i + 1]];
        args.RemoveAt(i);
        args.RemoveAt(i);
        assert args.items == before[..i] + before[i + 2..];
        assert args.items[..i] == before[..i];
        assert args.items[i..] == before[i + 2..];
      } else {
        OtherStep(before, i, flag);
        i := i + 1;
      }
    }
    assert StringFlags(args.items[i..], flag) == Extracted([], args.items[i..]);
    assert args.items[..i] + args.items[i..] == args.items;
  }

  /** A `flag` at index `i` contributes the next argument to the values, and both drop out. */
  lemma FlagStep<A>(s: seq<A>, i: nat, flag: A, found: seq<A>)
    requires i < |s| - 1 && s[i] == flag
    ensures found + StringFlags(s[i..], flag).value
            == (found + [s[i + 1]]) + StringFlags(s[i + 2..], flag).value
    ensures StringFlags(s[i..], flag).rest == StringFlags(s[i + 2..], flag).rest
  {
    assert s[i..][2..] == s[i + 2..];
    var next := StringFlags(s[i + 2..], flag);
    assert StringFlags(s[i..], flag).value == [s[i + 1]] + next.value;
    SeqAssoc(found, [s[i + 1]], next.value);
  }

  /** Any other argument at index `i` stays in the list in front of what the rest leaves. */
  lemma OtherStep<A>(s: seq<A>, i: nat, flag: A)
    requires i < |s| - 1 && s[i] != flag
    ensures StringFlags(s[i..], flag).value == StringFlags(s[i + 1..], flag).value
    ensures s[..i] + StringFlags(s[i..], flag).rest == s[..i + 1] + StringFlags(s[i + 1..], flag).rest
  {
    assert s[i..][1..] == s[i + 1..];
    var next := StringFlags(s[i + 1..], flag);
    assert StringFlags(s[i..], flag).rest == [s[i]] + next.rest;
    assert s[..i + 1] == s[..i] + [s[i]];
    SeqAssoc(s[..i], [s[i]], next.rest);
  }

  lemma SeqAssoc<A>(a: seq<A>, b: seq<A>, c: seq<A>)
    ensures a + (b + c) == (a + b) + c
  {
  }

  /** The settings `Main` takes from the command line. */
  datatype Options = Options(dryrun: bool, tabSize: int, excludeFiles: seq<string>, pattern: string)

  /** The command line after flag extraction: a run with its options, or the usage message
      (exit code 1) with the arguments that were left. */
  datatype Invocation = Run(options: Options) | Usage(leftOver: seq<string>)

  /** Lines 13-29 on the argument list `args`: `-dryrun`, then `-t` (default 4), then every
      `-x`; exactly one argument must remain, the file pattern. */
  function CommandLine(args: seq<string>, tryParse: string -> Option<int>): Invocation {
    var afterBool := RemoveFirst(args, "-dryrun");
    var t := IntFlag(afterBool, "-t", tryParse);
    var x := StringFlags(t.rest, "-x");
    if |x.rest| != 1 then Usage(x.rest)
    else
      var tabSize := match t.value case Some(v) => v case None => 4;
      Run(Options("-dryrun" in args, tabSize, x.value, x.rest[0]))
  }

  /** A lone pattern that is not `-dryrun` runs with the defaults: no dry run, tab size 4 and
      nothing excluded. */
  lemma PatternAloneUsesDefaults(pattern: string, tryParse: string -> Option<int>)
    requires pattern != "-dryrun"
    ensures CommandLine([pattern], tryParse) == Run(Options(false, 4, [], pattern))
  {
    assert RemoveFirst([pattern], "-dryrun") == [pattern];
  }

  /** A run uses up every argument but the pattern: one for `-dryrun`, two for each `-x`, and two
      for `-t` when a value was taken; without one the tab size is the default 4. */
  lemma CommandLineConsumesArguments(args: seq<string>, tryParse: string -> Option<int>)
    ensures CommandLine(args, tryParse).Run? ==>
              var o := CommandLine(args, tryParse).options;
              var used := |args| - 1 - (if o.dryrun then 1 else 0) - 2 * |o.excludeFiles|;
              (used == 0 && o.tabSize == 4) || used == 2
  {
    var afterBool := RemoveFirst(args, "-dryrun");
    var t := IntFlag(afterBool, "-t", tryParse);
    var x := StringFlags(t.rest, "-x");
    assert |afterBool| == |args| - (if "-dryrun" in args then 1 else 0);
    assert |t.rest| == |afterBool| - (if t.value.Some? then 2 else 0);
    assert |x.rest| == |t.rest| - 2 * |x.value|;
  }

  /** The argument handling of `Main` (Program.cs:13-29). */
  method ParseCommandLine(args: seq<string>, tryParse: string -> Option<int>) returns (r: Invocation)
    ensures r == CommandLine(args, tryParse)
  {
    var parsedArgs := new ArgList(args);
    var dryrun := ExtractBoolFlag(parsedArgs, "-dryrun");
    var t := ExtractIntFlag(parsedArgs, "-t", tryParse);
    var tabSize := match t case Some(v) => v case None => 4;
    var excludeFiles := ExtractStringFlags(parsedArgs, "-x");
    if |parsedArgs.items| != 1 {
      return Usage(parsedArgs.items);
    }
    return Run(Options(dryrun, tabSize, excludeFiles, parsedArgs.items[0]));
  }
}
