/**
 The scanner of compat/getopt_long.c in its permuting mode: a parser that keeps
 its state between calls and moves skipped arguments behind the options as it
 goes.  The specification (`Answers`, `Split`) reads the original argument
 vector from left to right and knows nothing of the permutation.
 */
module Getopt {
  import opened Options
  import opened Permute

  datatype HasArg = NoArgument | RequiredArgument | OptionalArgument

  /** `flag` names the variable to store into; None stands for a null pointer. */
  datatype LongOption = LongOption(name: string, hasArg: HasArg, flag: Option<nat>, val: int)

  /** The option letters (without a leading '+' or '-') and the long table. */
  datatype Config = Config(letters: string, longs: seq<LongOption>)

  /** What one call reports; `End` is the return value -1. */
  datatype Found =
    | Short(letter: char, arg: Option<string>)
    | Long(index: nat, arg: Option<string>)
    | UnknownLetter(letter: char)
    | UnknownLong
    | AmbiguousLong
    | MissingForLetter(letter: char)
    | MissingForLong(index: nat)
    | UnexpectedForLong(index: nat)
    | End

  // ----- looking up a long option ---------------------------------------------

  datatype Match = Exact(index: nat) | Abbreviation(index: nat) | Ambiguous | NoMatch

  predicate SameEffect(a: LongOption, b: LongOption) {
    a.hasArg == b.hasArg && a.flag == b.flag && a.val == b.val
  }

  /** Options of the same effect differ at most in their names. */
  lemma SameButName(a: LongOption, b: LongOption)
    ensures SameEffect(a, b) <==> a == b.(name := a.name)
  {
  }

  ghost predicate Matches(longs: seq<LongOption>, name: string, i: int)
    requires 0 <= i < |longs|
  {
    name <= longs[i].name
  }

  /** An exact name wins; otherwise an abbreviation has to be unique up to effect. */
  ghost predicate IsMatch(longs: seq<LongOption>, name: string, m: Match) {
    match m
    case Exact(i) =>
      i < |longs| && longs[i].name == name && forall j :: 0 <= j < i ==> longs[j].name != name
    case Abbreviation(i) =>
      && i < |longs| && Matches(longs, name, i)
      && (forall j :: 0 <= j < |longs| ==> longs[j].name != name)
      && (forall j :: 0 <= j < |longs| && Matches(longs, name, j) ==> i <= j && SameEffect(longs[j], longs[i]))
    case Ambiguous =>
      && (forall j :: 0 <= j < |longs| ==> longs[j].name != name)
      && exists i, j :: 0 <= i < j < |longs| && Matches(longs, name, i) && Matches(longs, name, j) && !SameEffect(longs[i], longs[j])
    case NoMatch =>
      forall j :: 0 <= j < |longs| ==> !Matches(longs, name, j)
  }

  /** The four outcomes exclude each other, so `IsMatch` determines its result. */
  lemma MatchIsUnique(longs: seq<LongOption>, name: string, m: Match, m': Match)
    requires IsMatch(longs, name, m) && IsMatch(longs, name, m')
    ensures m == m'
  {
    if m.Exact? {
      assert Matches(longs, name, m.index);
    }
    if m'.Exact? {
      assert Matches(longs, name, m'.index);
    }
  }

  /** Index of the first entry that `name` abbreviates (or equals, if `whole`). */
  ghost function FirstFrom(longs: seq<LongOption>, name: string, whole: bool, k: nat): (i: nat)
    requires k <= |longs|
    ensures k <= i <= |longs|
    ensures i < |longs| ==> Matches(longs, name, i) && (whole ==> longs[i].name == name)
    ensures forall j :: k <= j < i ==> !Matches(longs, name, j) || (whole && longs[j].name != name)
    decreases |longs| - k
  {
    if k == |longs| || (Matches(longs, name, k) && (whole ==> longs[k].name == name)) then k
    else FirstFrom(longs, name, whole, k + 1)
  }

  /** Every name has an outcome. */
  lemma MatchExists(longs: seq<LongOption>, name: string) returns (m: Match)
    ensures IsMatch(longs, name, m)
  {
    var e, i := FirstFrom(longs, name, true, 0), FirstFrom(longs, name, false, 0);
    assert forall j :: 0 <= j < |longs| && longs[j].name == name ==> Matches(longs, name, j);
    if e < |longs| {
      m := Exact(e);
    } else if i == |longs| {
      m := NoMatch;
    } else if forall j :: 0 <= j < |longs| && Matches(longs, name, j) ==> SameEffect(longs[j], longs[i]) {
      m := Abbreviation(i);
    } else {
      m := Ambiguous;
    }
  }

  ghost function LookUp(longs: seq<LongOption>, name: string): (m: Match)
    ensures IsMatch(longs, name, m)
  {
    assert exists m :: IsMatch(longs, name, m) by {
      var m := MatchExists(longs, name);
    }
    var m :| IsMatch(longs, name, m);
    m
  }

  /** The search loop of parse_long_options, with its three running variables. */
  method FindLong(longs: seq<LongOption>, name: string) returns (m: Match)
    ensures m == LookUp(longs, name)
  {
    var found, second := -1, false;
    var i := 0;
    while i < |longs|
      invariant 0 <= i <= |longs| && -1 <= found < i
      invariant forall j :: 0 <= j < i ==> longs[j].name != name
      invariant found == -1 ==> !second && forall j :: 0 <= j < i ==> !Matches(longs, name, j)
      invariant found != -1 ==>
        && Matches(longs, name, found)
        && (forall j :: 0 <= j < found ==> !Matches(longs, name, j))
        && (second <==> exists j :: found < j < i && Matches(longs, name, j) && !SameEffect(longs[j], longs[found]))
    {
      if name <= longs[i].name {
        if |longs[i].name| == |name| {
          m := Exact(i);
          MatchIsUnique(longs, name, m, LookUp(longs, name));
          return;
        }
        if found == -1 {
          found := i;
        } else if !SameEffect(longs[i], longs[found]) {
          assert Matches(longs, name, i);
          second := true;
        }
      }
      i := i + 1;
    }
    m := if second then Ambiguous else if found != -1 then Abbreviation(found) else NoMatch;
    MatchIsUnique(longs, name, m, LookUp(longs, name));
  }

  // ----- reading the original argument vector ---------------------------------

  /** What is found at a place, and the argument index and offset to go on from;
      offset 0 means that the next call starts on a new argument. */
  datatype Reading = Reading(found: Found, next: nat, off: nat)

  /** Position of the first `c` in `s`, or the length of `s`. */
  function Find(s: string, c: char): (k: nat)
    ensures k <= |s|
    ensures k < |s| ==> s[k] == c
    ensures forall j :: 0 <= j < k ==> s[j] != c
    ensures k == |s| <==> c !in s
  {
    if s == [] || s[0] == c then 0 else 1 + Find(s[1..], c)
  }

  /** A long option whose text (after the dashes) is `text`; `next` is the index
      of the argument after the one that holds the text. */
  ghost function ReadLong(cfg: Config, args: seq<string>, next: nat, text: string): (r: Reading)
    requires next <= |args|
    ensures next <= r.next <= |args| && r.off == 0 && !r.found.End?
  {
    var eq := Find(text, '=');
    var value := if eq < |text| then Some(text[eq + 1..]) else None;
    match LookUp(cfg.longs, text[..eq])
    case Ambiguous => Reading(AmbiguousLong, next, 0)
    case NoMatch => Reading(UnknownLong, next, 0)
    case Exact(i) => ReadLongArg(cfg, args, next, i, value)
    case Abbreviation(i) => ReadLongArg(cfg, args, next, i, value)
  }

  ghost function ReadLongArg(cfg: Config, args: seq<string>, next: nat, i: nat, value: Option<string>): (r: Reading)
    requires next <= |args| && i < |cfg.longs|
    ensures next <= r.next <= |args| && r.off == 0 && !r.found.End?
  {
    match cfg.longs[i].hasArg
    case NoArgument => Reading(if value.Some? then UnexpectedForLong(i) else Long(i, None), next, 0)
    case OptionalArgument => Reading(Long(i, value), next, 0)
    case RequiredArgument =>
      if value.Some? then Reading(Long(i, value), next, 0)
      else if next < |args| then Reading(Long(i, Some(args[next])), next + 1, 0)
      else Reading(MissingForLong(i), next, 0)
  }

  predicate IsOption(cfg: Config, arg: string) {
    arg != [] && arg[0] == '-' && (|arg| == 1 ==> '-' in cfg.letters)
  }

  /** Where reading an option argument starts: a lone "-" is itself the letter. */
  function FirstOff(arg: string): nat {
    if |arg| == 1 then 0 else 1
  }

  /** Character `k` of the option letters, or a space past their end. */
  function LetterAt(cfg: Config, k: nat): char {
    if k < |cfg.letters| then cfg.letters[k] else ' '
  }

  /** One option, read at offset `off` of argument `i`. */
  ghost function ReadOption(cfg: Config, args: seq<string>, i: nat, off: nat): (r: Reading)
    requires i < |args| && off < |args[i]|
    ensures i <= r.next <= |args| && !r.found.End?
    ensures if r.off == 0 then i < r.next else r.next == i && off < r.off < |args[i]|
  {
    var arg, c := args[i], args[i][off];
    var last := off + 1 == |arg|;
    var k := Find(cfg.letters, c);
    var on := if last then Reading(Short(c, None), i + 1, 0) else Reading(Short(c, None), i, off + 1);
    if off > 0 && c == '-' then ReadLong(cfg, args, i + 1, arg[off + 1..])
    else if c == ':' || (c == '-' && !last) || k == |cfg.letters| then on.(found := UnknownLetter(c))
    else if c == 'W' && LetterAt(cfg, k + 1) == ';' then
      if !last then ReadLong(cfg, args, i + 1, arg[off + 1..])
      else if i + 1 == |args| then Reading(MissingForLetter(c), i + 1, 0)
      else ReadLong(cfg, args, i + 2, args[i + 1])
    else if LetterAt(cfg, k + 1) != ':' then on
    else if !last then Reading(Short(c, Some(arg[off + 1..])), i + 1, 0)
    else if LetterAt(cfg, k + 2) == ':' then Reading(Short(c, None), i + 1, 0)
    else if i + 1 == |args| then Reading(MissingForLetter(c), i + 1, 0)
    else Reading(Short(c, Some(args[i + 1])), i + 2, 0)
  }

  // ----- the specification of a whole run -------------------------------------

  /** Everything a run reports, reading on from offset `off` of argument `i`. */
  ghost function Answers(cfg: Config, args: seq<string>, i: nat, off: nat): seq<Found>
    requires off != 0 ==> i < |args| && off < |args[i]|
    decreases |args| - i, 1, if off == 0 then 0 else |args[i]| - off
  {
    if i >= |args| then [End]
    else if off == 0 && !IsOption(cfg, args[i]) then Answers(cfg, args, i + 1, 0)
    else if off == 0 && args[i] == "--" then [End]
    else AnswersInOption(cfg, args, i, if off == 0 then FirstOff(args[i]) else off)
  }

  ghost function AnswersInOption(cfg: Config, args: seq<string>, i: nat, off: nat): seq<Found>
    requires i < |args| && off < |args[i]|
    decreases |args| - i, 0, |args[i]| - off
  {
    var r := ReadOption(cfg, args, i, off);
    [r.found] + if r.off == 0 then Answers(cfg, args, r.next, 0) else AnswersInOption(cfg, args, i, r.off)
  }

  /** Index of the argument after the option that starts (or goes on) at `off`. */
  ghost function EndOfOption(cfg: Config, args: seq<string>, i: nat, off: nat): (j: nat)
    requires i < |args| && off < |args[i]|
    ensures i < j <= |args|
    decreases |args[i]| - off
  {
    var r := ReadOption(cfg, args, i, off);
    if r.off == 0 then r.next else EndOfOption(cfg, args, i, r.off)
  }

  /** The arguments from `i` on, sorted into options with their arguments, skipped
      arguments, and whatever follows a "--". */
  datatype Parts = Parts(options: seq<string>, skipped: seq<string>, rest: seq<string>)

  ghost function Split(cfg: Config, args: seq<string>, i: nat): Parts
    decreases |args| - i
  {
    if i >= |args| then Parts([], [], [])
    else if !IsOption(cfg, args[i]) then
      var p := Split(cfg, args, i + 1);
      p.(skipped := [args[i]] + p.skipped)
    else if args[i] == "--" then Parts([args[i]], [], args[i + 1..])
    else
      var j := EndOfOption(cfg, args, i, FirstOff(args[i]));
      var p := Split(cfg, args, j);
      p.(options := args[i..j] + p.options)
  }

  /** `w` is made of the elements of `a` and of `b`, each in their own order. */
  ghost predicate Interleaved<T>(a: seq<T>, b: seq<T>, w: seq<T>) {
    if w == [] then a == [] && b == []
    else
      || (a != [] && a[0] == w[0] && Interleaved(a[1..], b, w[1..]))
      || (b != [] && b[0] == w[0] && Interleaved(a, b[1..], w[1..]))
  }

  lemma {:induction false} InterleavedWithBlock<T>(block: seq<T>, a: seq<T>, b: seq<T>, w: seq<T>)
    requires Interleaved(a, b, w)
    ensures Interleaved(block + a, b, block + w)
  {
    if block == [] {
      assert block + a == a && block + w == w;
    } else {
      InterleavedWithBlock(block[1..], a, b, w);
      assert (block + a)[1..] == block[1..] + a;
      assert (block + w)[1..] == block[1..] + w;
    }
  }

  /** `p` loses none of the arguments from `i` on, repeats none and keeps both
      orders: before the rest come the options interleaved with the skipped arguments. */
  ghost predicate Sorts(args: seq<string>, i: nat, p: Parts) {
    && |p.options| + |p.skipped| + |p.rest| == |args| - i
    && args[|args| - |p.rest|..] == p.rest
    && Interleaved(p.options, p.skipped, args[i..|args| - |p.rest|])
  }

  lemma SortsSkipped(args: seq<string>, i: nat, p: Parts)
    requires i < |args| && Sorts(args, i + 1, p)
    ensures Sorts(args, i, p.(skipped := [args[i]] + p.skipped))
  {
    var w := args[i..|args| - |p.rest|];
    assert w[1..] == args[i + 1..|args| - |p.rest|];
    assert ([args[i]] + p.skipped)[1..] == p.skipped;
  }

  lemma SortsTaken(args: seq<string>, i: nat, j: nat, p: Parts)
    requires i <= j <= |args| && Sorts(args, j, p)
    ensures Sorts(args, i, p.(options := args[i..j] + p.options))
  {
    var w := args[j..|args| - |p.rest|];
    InterleavedWithBlock(args[i..j], p.options, p.skipped, w);
    assert args[i..j] + w == args[i..|args| - |p.rest|];
  }

  lemma {:induction false} SplitSorts(cfg: Config, args: seq<string>, i: nat)
    requires i <= |args|
    ensures Sorts(args, i, Split(cfg, args, i))
    decreases |args| - i
  {
    if i == |args| {
    } else if !IsOption(cfg, args[i]) {
      SplitSorts(cfg, args, i + 1);
      SortsSkipped(args, i, Split(cfg, args, i + 1));
    } else if args[i] == "--" {
      assert args[i..i + 1] == ["--"];
    } else {
      var j := EndOfOption(cfg, args, i, FirstOff(args[i]));
      SplitSorts(cfg, args, j);
      SortsTaken(args, i, j, Split(cfg, args, j));
    }
  }

  /** `Split`, for a scanner that may be in the middle of an option. */
  ghost function SplitFrom(cfg: Config, args: seq<string>, i: nat, off: nat): Parts
    requires off != 0 ==> i < |args| && off < |args[i]|
  {
    if off == 0 then Split(cfg, args, i) else InOption(cfg, args, i, off)
  }

  // ----- the arrangement of the vector between calls --------------------------

  /** Options taken so far and arguments skipped so far, in the order in which the
      vector holds them: `start` and `end` are nonopt_start and nonopt_end. */
  ghost function Layout(start: int, end: int, taken: seq<string>, skipped: seq<string>): seq<string>
    requires end != -1 ==> 1 <= start <= 1 + |taken|
  {
    if end == -1 then taken + skipped else taken[..start - 1] + skipped + taken[start - 1..]
  }

  /** The vector with options first, then skipped arguments, then the rest. */
  ghost function InOrder(args: seq<string>, options: seq<string>, skipped: seq<string>, rest: seq<string>): seq<string>
    requires 1 <= |args|
  {
    args[..1] + (options + skipped) + rest
  }

  ghost predicate Arranged(args: seq<string>, av: seq<string>, optind: int, start: int, end: int,
                           taken: seq<string>, skipped: seq<string>)
  {
    && 1 <= optind <= |args|
    && optind == 1 + |taken| + |skipped|
    && (start == -1 <==> skipped == [])
    && (start == -1 ==> end == -1)
    && (start != -1 && end == -1 ==> start == 1 + |taken|)
    && (end != -1 ==> 1 <= start <= 1 + |taken| && end == start + |skipped|)
    && av == args[..1] + Layout(start, end, taken, skipped) + args[optind..]
  }

  lemma AheadUntouched(args: seq<string>, av: seq<string>, optind: int, start: int, end: int,
                       taken: seq<string>, skipped: seq<string>)
    requires Arranged(args, av, optind, start, end, taken, skipped)
    ensures |av| == |args| && av[optind..] == args[optind..]
    ensures forall k :: optind <= k < |args| ==> av[k] == args[k]
  {
    var front := args[..1] + Layout(start, end, taken, skipped);
    assert |front| == optind;
    assert av[optind..] == args[optind..];
    forall k | optind <= k < |args| ensures av[k] == args[k] {
      assert av[k] == av[optind..][k - optind];
    }
  }

  lemma Regroup<T>(h: seq<T>, a: seq<T>, x: seq<T>, y: seq<T>, rest: seq<T>)
    ensures h + (a + x + y) + rest == (h + a) + x + y + rest
  {
  }

  /** The exchange brings every skipped argument behind every option. */
  lemma ExchangeRestores(args: seq<string>, av: seq<string>, optind: int, start: int, end: int,
                         taken: seq<string>, skipped: seq<string>)
    requires Arranged(args, av, optind, start, end, taken, skipped) && end != -1
    ensures start < end <= optind <= |av|
    ensures Swapped(av, start, end, optind) == InOrder(args, taken, skipped, args[optind..])
  {
    BlockBounds(args, av, optind, start, end, taken, skipped);
    SwapLayout(args[..1], taken, start - 1, skipped, args[optind..], av, start, end, optind);
  }

  /** The lengths of what lies before, in and behind the two blocks. */
  lemma BlockBounds(args: seq<string>, av: seq<string>, optind: int, start: int, end: int,
                    taken: seq<string>, skipped: seq<string>)
    requires Arranged(args, av, optind, start, end, taken, skipped) && end != -1
    ensures 0 <= start - 1 <= |taken| && skipped != [] && start < end <= optind <= |av|
    ensures |args[..1]| + (start - 1) == start && start + |skipped| == end && 1 + |taken| + |skipped| == optind
    ensures av == args[..1] + (taken[..start - 1] + skipped + taken[start - 1..]) + args[optind..]
  {
  }

  /** Exchanging a block in the middle of others with what follows it. */
  lemma SwapMiddle<T>(h: seq<T>, a: seq<T>, x: seq<T>, b: seq<T>, rest: seq<T>)
    ensures Swapped(h + (a + x + b) + rest, |h| + |a|, |h| + |a| + |x|, |h| + |a| + |x| + |b|) == h + (a + b + x) + rest
  {
    Regroup(h, a, x, b, rest);
    SwappedBlocks(h + a, x, b, rest);
    Regroup(h, a, b, x, rest);
  }

  lemma SwapLayout<T>(h: seq<T>, taken: seq<T>, k: nat, skipped: seq<T>, rest: seq<T>,
                      av: seq<T>, start: int, end: int, last: int)
    requires k <= |taken| && av == h + (taken[..k] + skipped + taken[k..]) + rest
    requires start == |h| + k && end == start + |skipped| && last == |h| + |taken| + |skipped|
    ensures Swapped(av, start, end, last) == h + (taken + skipped) + rest
  {
    SwapMiddle(h, taken[..k], skipped, taken[k..], rest);
    assert taken[..k] + taken[k..] == taken;
  }

  lemma TakeOption(args: seq<string>, av: seq<string>, optind: int, next: int, start: int, end: int,
                   taken: seq<string>, skipped: seq<string>)
    requires Arranged(args, av, optind, start, end, taken, skipped)
    requires optind <= next <= |args| && (start != -1 ==> end != -1)
    ensures Arranged(args, av, next, start, end, taken + args[optind..next], skipped)
  {
    var more := args[optind..next];
    LayoutGrows(start, end, taken, skipped, more);
    MoveBlock(args[..1], Layout(start, end, taken, skipped), more, args[next..]);
    assert args[optind..] == more + args[next..];
  }

  lemma LayoutGrows(start: int, end: int, taken: seq<string>, skipped: seq<string>, more: seq<string>)
    requires if end == -1 then skipped == [] else 1 <= start <= 1 + |taken|
    ensures Layout(start, end, taken + more, skipped) == Layout(start, end, taken, skipped) + more
  {
    if end != -1 {
      assert (taken + more)[..start - 1] == taken[..start - 1];
      assert (taken + more)[start - 1..] == taken[start - 1..] + more;
    }
  }

  lemma MoveBlock<T>(h: seq<T>, a: seq<T>, b: seq<T>, rest: seq<T>)
    ensures h + a + (b + rest) == h + (a + b) + rest
  {
  }

  lemma MoveFirst<T>(a: seq<T>, b: seq<T>)
    requires b != []
    ensures a + b == (a + [b[0]]) + b[1..]
  {
  }

  /** Meeting an option after skipped arguments. */
  lemma MarkEnd(args: seq<string>, av: seq<string>, optind: int, start: int, taken: seq<string>, skipped: seq<string>)
    requires Arranged(args, av, optind, start, -1, taken, skipped) && start != -1
    ensures Arranged(args, av, optind, start, optind, taken, skipped)
  {
    assert taken[..start - 1] + skipped + taken[start - 1..] == taken + skipped;
  }

  /** Skipping an argument once all skipped ones lie together in front of it. */
  lemma SkipArgument(args: seq<string>, av: seq<string>, optind: int, start: int,
                     taken: seq<string>, skipped: seq<string>)
    requires 1 <= optind < |args| && optind == 1 + |taken| + |skipped| && start == 1 + |taken|
    requires av == InOrder(args, taken, skipped, args[optind..])
    ensures Arranged(args, av, optind + 1, start, -1, taken, skipped + [args[optind]])
  {
    assert args[optind..] == [args[optind]] + args[optind + 1..];
    assert taken + (skipped + [args[optind]]) == (taken + skipped) + [args[optind]];
  }

  /** The parts `p` still to come complete the arguments sorted so far. */
  ghost predicate Completes(whole: Parts, taken: seq<string>, skipped: seq<string>, p: Parts) {
    whole == Parts(taken + p.options, skipped + p.skipped, p.rest)
  }

  ghost predicate IsSorted(args: seq<string>, p: Parts, av: seq<string>, optind: int)
    requires 1 <= |args|
  {
    av == InOrder(args, p.options, p.skipped, p.rest) && optind == 1 + |p.options|
  }

  lemma {:induction false} EndSorted(whole: Parts, cfg: Config, args: seq<string>, i: nat, taken: seq<string>, skipped: seq<string>)
    requires i >= |args| && Completes(whole, taken, skipped, Split(cfg, args, i))
    ensures whole == Parts(taken, skipped, [])
  {
  }

  lemma SkipCompletes(whole: Parts, cfg: Config, args: seq<string>, i: nat, taken: seq<string>, skipped: seq<string>)
    requires i < |args| && !IsOption(cfg, args[i]) && Completes(whole, taken, skipped, Split(cfg, args, i))
    ensures Completes(whole, taken, skipped + [args[i]], Split(cfg, args, i + 1))
  {
    var p := Split(cfg, args, i + 1);
    assert skipped + ([args[i]] + p.skipped) == (skipped + [args[i]]) + p.skipped;
  }

  /** `Split`, from the middle of the option at offset `off` of argument `i`. */
  ghost function InOption(cfg: Config, args: seq<string>, i: nat, off: nat): Parts
    requires i < |args| && off < |args[i]|
  {
    var j := EndOfOption(cfg, args, i, off);
    var p := Split(cfg, args, j);
    p.(options := args[i..j] + p.options)
  }

  lemma {:induction false} TakeCompletes(whole: Parts, cfg: Config, args: seq<string>, i: nat, j: nat, taken: seq<string>, skipped: seq<string>)
    requires i <= j <= |args|
    requires var p := Split(cfg, args, j); Completes(whole, taken, skipped, p.(options := args[i..j] + p.options))
    ensures Completes(whole, taken + args[i..j], skipped, Split(cfg, args, j))
  {
    var p := Split(cfg, args, j);
    assert taken + (args[i..j] + p.options) == (taken + args[i..j]) + p.options;
  }

  lemma AnswersSkip(cfg: Config, args: seq<string>, i: nat)
    requires i < |args| && !IsOption(cfg, args[i])
    ensures Answers(cfg, args, i, 0) == Answers(cfg, args, i + 1, 0)
  {
  }

  lemma {:induction false} DashesSorted(whole: Parts, cfg: Config, args: seq<string>, i: nat, taken: seq<string>, skipped: seq<string>)
    requires i < |args| && args[i] == "--" && Completes(whole, taken, skipped, Split(cfg, args, i))
    ensures whole == Parts(taken + args[i..i + 1], skipped, args[i + 1..])
  {
    assert args[i..i + 1] == [args[i]];
  }

  // ----- the scanner ----------------------------------------------------------

  class Scanner {
    const cfg: Config
    const argv: array<string>
    var optind: nat        // index of the next argument to look at
    var place: nat         // offset of the next letter in it, or 0 for the empty scan pointer
    var nonoptStart: int   // first skipped argument, or -1
    var nonoptEnd: int     // first option after the skipped arguments, or -1
    ghost const args: seq<string>   // the vector before the first call
    ghost const whole: Parts        // the same, sorted
    ghost var taken: seq<string>    // options and their arguments, in original order
    ghost var skipped: seq<string>  // skipped arguments, in original order

    ghost predicate Scanning()
      reads this, argv
    {
      && Arranged(args, argv[..], optind, nonoptStart, nonoptEnd, taken, skipped)
      && (place != 0 ==> optind < |args| && place < |args[optind]|)
      && (place != 0 && nonoptStart != -1 ==> nonoptEnd != -1)
      && (place == 0 && nonoptEnd != -1 ==> nonoptEnd < optind)
    }

    /** What is still to be sorted completes what has been sorted so far. */
    ghost predicate Valid()
      reads this, argv
    {
      Scanning() && Completes(whole, taken, skipped, SplitFrom(cfg, args, optind, place))
    }

    /** The vector after the last call: options, then skipped arguments, then the
        rest, with `optind` at the first argument that is not an option. */
    ghost predicate Sorted()
      reads this, argv
    {
      1 <= |args| && IsSorted(args, whole, argv[..], optind)
    }

    constructor (argv: array<string>, cfg: Config)
      requires 1 <= argv.Length
      ensures Valid() && this.argv == argv && this.cfg == cfg && args == argv[..] && whole == Split(cfg, args, 1)
      ensures optind == 1 && place == 0
    {
      this.cfg, this.argv := cfg, argv;
      optind, place, nonoptStart, nonoptEnd := 1, 0, -1, -1;
      args, whole, taken, skipped := argv[..], Split(cfg, argv[..], 1), [], [];
      new;
      assert argv[..] == args[..1] + Layout(-1, -1, [], []) + args[1..];
    }

    /** The call of permute_args, which is never made with an empty block. */
    method MoveSkipped()
      requires Arranged(args, argv[..], optind, nonoptStart, nonoptEnd, taken, skipped)
      requires nonoptEnd != -1 && nonoptEnd < optind
      modifies argv
      ensures 1 <= |args| && argv[..] == InOrder(args, taken, skipped, args[optind..])
    {
      ExchangeRestores(args, argv[..], optind, nonoptStart, nonoptEnd, taken, skipped);
      PermuteArgs(nonoptStart, nonoptEnd, optind, argv);
    }

    /** The last steps of a run: bring the skipped arguments behind the options and
        leave `optind` at the first of them. */
    method PutSkippedLast()
      requires Arranged(args, argv[..], optind, nonoptStart, nonoptEnd, taken, skipped)
      requires nonoptEnd != -1 ==> nonoptEnd < optind
      modifies this, argv
      ensures 1 <= |args| && argv[..] == InOrder(args, taken, skipped, args[old(optind)..]) && optind == 1 + |taken|
      ensures unchanged(`taken) && unchanged(`skipped)
    {
      if nonoptEnd != -1 {
        MoveSkipped();
        optind := optind - (nonoptEnd - nonoptStart);
      } else if nonoptStart != -1 {
        optind := nonoptStart;
      }
      nonoptStart, nonoptEnd := -1, -1;
    }

    /** The end of the vector. */
    method Finish()
      requires Valid() && place == 0 && optind >= |args|
      modifies this, argv
      ensures Sorted()
    {
      EndSorted(whole, cfg, args, optind, taken, skipped);
      PutSkippedLast();
    }

    /** Bring the skipped arguments together in front of `optind`. */
    method GatherSkipped()
      requires Arranged(args, argv[..], optind, nonoptStart, nonoptEnd, taken, skipped)
      requires nonoptEnd != -1 ==> nonoptEnd < optind
      modifies `nonoptStart, `nonoptEnd, argv
      ensures 1 <= |args| && argv[..] == InOrder(args, taken, skipped, args[optind..])
      ensures nonoptStart == 1 + |taken| && nonoptEnd == -1
    {
      if nonoptStart == -1 {
        nonoptStart := optind;
      } else if nonoptEnd != -1 {
        MoveSkipped();
        nonoptStart := optind - (nonoptEnd - nonoptStart);
        nonoptEnd := -1;
      }
    }

    /** One more skipped argument behind the others. */
    method NoteSkipped()
      requires 1 <= optind < |args| && optind == 1 + |taken| + |skipped| && nonoptStart == 1 + |taken| && nonoptEnd == -1
      requires argv[..] == InOrder(args, taken, skipped, args[optind..])
      modifies `optind, `skipped
      ensures optind == old(optind) + 1 && skipped == old(skipped) + [args[old(optind)]]
      ensures Arranged(args, argv[..], optind, nonoptStart, nonoptEnd, taken, skipped)
      ensures optind < |args| ==> argv[optind] == args[optind]
    {
      SkipArgument(args, argv[..], optind, nonoptStart, taken, skipped);
      skipped := skipped + [args[optind]];
      optind := optind + 1;
      AheadUntouched(args, argv[..], optind, nonoptStart, nonoptEnd, taken, skipped);
    }

    /** An argument that is not an option: move the skipped ones up to it if
        options came between, and skip it too. */
    method Skip()
      requires Valid() && place == 0 && optind < |args| && !IsOption(cfg, args[optind])
      modifies this, argv
      ensures Valid() && place == 0 && optind == old(optind) + 1
      ensures optind < |args| ==> argv[optind] == args[optind]
      ensures Answers(cfg, args, optind, 0) == Answers(cfg, args, old(optind), 0)
    {
      AnswersSkip(cfg, args, optind);
      SkipCompletes(whole, cfg, args, optind, taken, skipped);
      PassOver();
    }

    /** The argument joins the skipped ones. */
    method PassOver()
      requires Scanning() && place == 0 && optind < |args|
      modifies this, argv
      ensures Scanning() && place == 0 && optind == old(optind) + 1
      ensures taken == old(taken) && skipped == old(skipped) + [args[old(optind)]]
      ensures optind < |args| ==> argv[optind] == args[optind]
    {
      GatherSkipped();
      NoteSkipped();
    }

    /** The scanner has met an option and knows where the skipped arguments end. */
    ghost predicate AtOption()
      reads this, argv
    {
      && Arranged(args, argv[..], optind, nonoptStart, nonoptEnd, taken, skipped)
      && optind < |args|
      && (nonoptStart != -1 ==> nonoptEnd != -1)
    }

    /** Everything up to `next` belongs to the current option. */
    method Advance(next: nat)
      requires AtOption() && optind < next <= |args|
      modifies `optind, `taken
      ensures optind == next && taken == old(taken + args[optind..next])
      ensures Arranged(args, argv[..], optind, nonoptStart, nonoptEnd, taken, skipped)
      ensures nonoptEnd != -1 ==> nonoptEnd < optind
    {
      TakeOption(args, argv[..], optind, next, nonoptStart, nonoptEnd, taken, skipped);
      taken := taken + args[optind..next];
      optind := next;
    }

    /** A "--". */
    method StopScanning()
      requires AtOption() && args[optind] == "--" && Completes(whole, taken, skipped, Split(cfg, args, optind))
      modifies this, argv
      ensures Sorted()
    {
      DashesSorted(whole, cfg, args, optind, taken, skipped);
      Advance(optind + 1);
      assert whole == Parts(taken, skipped, args[optind..]);
      PutSkippedLast();
    }

    /** parse_long_options, called with the text after the dashes; the argument
        that holds it is the one before `next`. */
    method ParseLong(text: string, next: nat) returns (f: Found, j: nat)
      requires next <= |args| == argv.Length
      requires next < |args| ==> argv[next] == args[next]
      ensures Reading(f, j, 0) == ReadLong(cfg, args, next, text)
    {
      j := next;
      var eq := Find(text, '=');
      var value: Option<string> := if eq < |text| then Some(text[eq + 1..]) else None;
      var m := FindLong(cfg.longs, text[..eq]);
      if m.Ambiguous? {
        return AmbiguousLong, j;
      }
      if m.NoMatch? {
        return UnknownLong, j;
      }
      var long := cfg.longs[m.index];
      if long.hasArg.NoArgument? && value.Some? {
        return UnexpectedForLong(m.index), j;
      }
      var optarg: Option<string> := None;
      if long.hasArg.RequiredArgument? || long.hasArg.OptionalArgument? {
        if value.Some? {
          optarg := value;
        } else if long.hasArg.RequiredArgument? {
          optarg := if j < argv.Length then Some(argv[j]) else None;
          j := j + 1;
        }
      }
      if long.hasArg.RequiredArgument? && optarg.None? {
        j := j - 1;
        return MissingForLong(m.index), j;
      }
      return Long(m.index, optarg), j;
    }

    /** The letter or long option at offset `off` of the current argument. */
    method ParseOption(off: nat) returns (f: Found, j: nat, off': nat)
      requires optind < |args| == argv.Length
      requires forall k :: optind <= k < |args| ==> argv[k] == args[k]
      requires off < |args[optind]|
      ensures Reading(f, j, off') == ReadOption(cfg, args, optind, off)
    {
      var arg := argv[optind];
      var c := arg[off];
      if off > 0 && c == '-' {
        f, j := ParseLong(arg[off + 1..], optind + 1);
        return f, j, 0;
      }
      var last := off + 1 == |arg|;
      j, off' := if last then optind + 1 else optind, if last then 0 else off + 1;
      var oli := Find(cfg.letters, c);
      if c == ':' || (c == '-' && !last) || oli == |cfg.letters| {
        return UnknownLetter(c), j, off';
      }
      if c == 'W' && LetterAt(cfg, oli + 1) == ';' {
        if !last {
          f, j := ParseLong(arg[off + 1..], optind + 1);
        } else if optind + 1 >= argv.Length {
          f, j := MissingForLetter(c), optind + 1;
        } else {
          f, j := ParseLong(argv[optind + 1], optind + 2);
        }
        return f, j, 0;
      }
      if LetterAt(cfg, oli + 1) != ':' {
        return Short(c, None), j, off';
      }
      if !last {
        return Short(c, Some(arg[off + 1..])), optind + 1, 0;
      }
      if LetterAt(cfg, oli + 2) == ':' {
        return Short(c, None), optind + 1, 0;
      }
      if optind + 1 >= argv.Length {
        return MissingForLetter(c), optind + 1, 0;
      }
      return Short(c, Some(argv[optind + 1])), optind + 2, 0;
    }

    /** One call that finds an option: it reports what the original vector says and
        moves the scan pointer on. */
    method TakeNext(off: nat) returns (f: Found)
      requires AtOption() && off < |args[optind]|
      requires Completes(whole, taken, skipped, InOption(cfg, args, optind, off))
      modifies this
      ensures Valid() && f == ReadOption(cfg, args, old(optind), off).found
      ensures optind == ReadOption(cfg, args, old(optind), off).next && place == ReadOption(cfg, args, old(optind), off).off
    {
      AheadUntouched(args, argv[..], optind, nonoptStart, nonoptEnd, taken, skipped);
      var j, off';
      f, j, off' := ParseOption(off);
      if off' == 0 {
        TakeCompletes(whole, cfg, args, optind, j, taken, skipped);
        Advance(j);
      }
      place := off';
    }
 
    /** The loop over arguments that are not options. */
    method SkipAll()
      requires Valid() && place == 0
      modifies this, argv
      ensures Valid() && place == 0
      ensures optind < |args| ==> argv[optind] == args[optind] && IsOption(cfg, args[optind])
      ensures Answers(cfg, args, optind, 0) == Answers(cfg, args, old(optind), 0)
    {
      ghost var all := Answers(cfg, args, optind, 0);
      AheadUntouched(args, argv[..], optind, nonoptStart, nonoptEnd, taken, skipped);
      while optind < argv.Length && !IsOption(cfg, argv[optind])
        invariant Valid() && place == 0
        invariant optind < |args| ==> argv[optind] == args[optind]
        invariant Answers(cfg, args, optind, 0) == all
        decreases |args| - optind
      {
        Skip();
      }
    }

    /** One call of getopt_long. */
    method Next() returns (f: Found)
      requires Valid()
      modifies this, argv
      ensures f.End? ==> Sorted()
      ensures !f.End? ==> Valid()
      ensures old(Answers(cfg, args, optind, place)) == [f] + if f.End? then [] else Answers(cfg, args, optind, place)
    {
      if place != 0 {
        f := TakeNext(place);
        return;
      }
      SkipAll();
      if optind >= argv.Length {
        Finish();
        return End;
      }
      f := NextOption();
    }

    /** The argument at `optind` is an option or "--". */
    method NextOption() returns (f: Found)
      requires Valid() && place == 0 && optind < |args| && argv[optind] == args[optind] && IsOption(cfg, args[optind])
      modifies this, argv
      ensures f.End? ==> Sorted()
      ensures !f.End? ==> Valid()
      ensures Answers(cfg, args, old(optind), 0) == [f] + if f.End? then [] else Answers(cfg, args, optind, place)
    {
      if nonoptStart != -1 && nonoptEnd == -1 {
        nonoptEnd := optind;
        MarkEnd(args, argv[..], optind, nonoptStart, taken, skipped);
      }
      if argv[optind] == "--" {
        StopScanning();
        return End;
      }
      f := TakeNext(FirstOff(argv[optind]));
    }

    /** Calls until the last one, which returns -1. */
    method Drain() returns (found: seq<Found>)
      requires Valid()
      modifies this, argv
      ensures Sorted() && found == old(Answers(cfg, args, optind, place))
    {
      found := [];
      ghost var all := Answers(cfg, args, optind, place);
      ghost var rest := all;
      while true
        invariant Valid() && rest == Answers(cfg, args, optind, place)
        invariant all == found + rest
        decreases |rest|
      {
        var f := Next();
        MoveFirst(found, rest);
        found := found + [f];
        if f.End? {
          return;
        }
        rest := rest[1..];
      }
    }
  }

  /** A whole run of getopt_long: the reports are those of the original vector read
      from left to right, and at the end the vector is sorted. */
  method Run(argv: array<string>, cfg: Config) returns (found: seq<Found>, optind: nat)
    requires 1 <= argv.Length
    modifies argv
    ensures found == Answers(cfg, old(argv[..]), 1, 0)
    ensures IsSorted(old(argv[..]), Split(cfg, old(argv[..]), 1), argv[..], optind)
  {
    var s := new Scanner(argv, cfg);
    found := s.Drain();
    optind := s.optind;
  }
}
