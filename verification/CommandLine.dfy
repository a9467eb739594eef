/**
 Command lines as their users write them, against compat/getopt_long.c: what is
 written is a list of options and operands, and reading the words gives the list back.
 Nothing here refers to how the scanner reads an option.
 */
module CommandLine {
  import opened Options
  import opened Sequences
  import opened Getopt

  // ----- what the option letters declare ---------------------------------------

  /** What a letter is, by what stands behind it in the option letters: nothing, ":" for
      an argument, "::" for an optional one; "W;" opens a long option. */
  datatype Use = Unknown | Plain | Needs | May | Gate

  ghost function UseOf(letters: string, c: char): Use {
    if c == ':' || c !in letters then Unknown
    else
      var tail := letters[Find(letters, c) + 1..];
      if c == 'W' && ";" <= tail then Gate
      else if "::" <= tail then May
      else if ":" <= tail then Needs
      else Plain
  }

  // ----- what is written ---------------------------------------------------------

  datatype Value = Nothing | Equals(text: string) | NextWord(word: string)

  /** A long option: its name, perhaps abbreviated, and its argument. */
  datatype LongText = LongText(name: string, value: Value)

  /** What ends a word of letters. */
  datatype Last =
    | Bare(c: char)                        // a letter without an argument
    | Attached(c: char, arg: string)       // the argument behind the letter
    | Separate(c: char, arg: string)       // the argument in the next word
    | Hyphen(long: LongText)               // a hyphen and a long option
    | Via(long: LongText, apart: bool)     // a W and a long option, behind it or in the next word

  /** One option with its arguments, or several letters in a word; or an operand. */
  datatype Piece =
    | Operand(word: string)
    | Lone(arg: Option<string>)            // "-" as an option letter
    | Letters(front: string, last: Last)

  function Text(l: LongText): string {
    if l.value.Equals? then l.name + "=" + l.value.text else l.name
  }

  function Extra(l: LongText): seq<string> {
    if l.value.NextWord? then [l.value.word] else []
  }

  function LastText(e: Last): string {
    match e
    case Bare(c) => [c]
    case Attached(c, arg) => [c] + arg
    case Separate(c, _) => [c]
    case Hyphen(l) => "-" + Text(l)
    case Via(l, apart) => if apart then "W" else "W" + Text(l)
  }

  function LastWords(e: Last): seq<string> {
    match e
    case Bare(_) => []
    case Attached(_, _) => []
    case Separate(_, arg) => [arg]
    case Hyphen(l) => Extra(l)
    case Via(l, apart) => if apart then [Text(l)] + Extra(l) else Extra(l)
  }

  function LoneWords(arg: Option<string>): seq<string> {
    if arg.Some? then [arg.value] else []
  }

  /** The words of a piece. */
  function WordsOf(p: Piece): seq<string> {
    match p
    case Operand(w) => [w]
    case Lone(arg) => ["-"] + LoneWords(arg)
    case Letters(front, last) => ["-" + (front + LastText(last))] + LastWords(last)
  }

  // ----- what it means -------------------------------------------------------------

  ghost predicate Known(cfg: Config, name: string) {
    LookUp(cfg.longs, name).Exact? || LookUp(cfg.longs, name).Abbreviation?
  }

  ghost function Wants(cfg: Config, name: string): HasArg
    requires Known(cfg, name)
  {
    cfg.longs[LookUp(cfg.longs, name).index].hasArg
  }

  /** A long option can be written so: a word of its own only for an argument that is
      required, and no argument then only at the very end. */
  ghost predicate LongOk(cfg: Config, l: LongText, atEnd: bool) {
    && '=' !in l.name
    && (l.value.NextWord? ==> Known(cfg, l.name) && Wants(cfg, l.name).RequiredArgument?)
    && (l.value.Nothing? && Known(cfg, l.name) && Wants(cfg, l.name).RequiredArgument? ==> atEnd)
  }

  ghost function LongFound(cfg: Config, l: LongText): Found {
    var m := LookUp(cfg.longs, l.name);
    if m.Ambiguous? then AmbiguousLong
    else if m.NoMatch? then UnknownLong
    else
      match l.value
      case NextWord(w) => Long(m.index, Some(w))
      case Equals(t) => if cfg.longs[m.index].hasArg.NoArgument? then UnexpectedForLong(m.index) else Long(m.index, Some(t))
      case Nothing => if cfg.longs[m.index].hasArg.RequiredArgument? then MissingForLong(m.index) else Long(m.index, None)
  }

  ghost predicate FrontOk(cfg: Config, front: string) {
    forall k :: 0 <= k < |front| ==> front[k] != '-' && (UseOf(cfg.letters, front[k]).Unknown? || UseOf(cfg.letters, front[k]).Plain?)
  }

  ghost predicate LastOk(cfg: Config, e: Last, atEnd: bool) {
    match e
    case Bare(c) => c != '-' && (UseOf(cfg.letters, c).Needs? || UseOf(cfg.letters, c).Gate? ==> atEnd)
    case Attached(c, arg) => c != '-' && arg != "" && (UseOf(cfg.letters, c).Needs? || UseOf(cfg.letters, c).May?)
    case Separate(c, _) => c != '-' && UseOf(cfg.letters, c).Needs?
    case Hyphen(l) => LongOk(cfg, l, atEnd)
    case Via(l, apart) => UseOf(cfg.letters, 'W').Gate? && (apart || Text(l) != "") && LongOk(cfg, l, atEnd)
  }

  /** A piece can be written so. */
  ghost predicate Ok(cfg: Config, p: Piece, atEnd: bool) {
    match p
    case Operand(w) => !("-" <= w) || (w == "-" && '-' !in cfg.letters)
    case Lone(arg) =>
      && '-' in cfg.letters
      && (if arg.Some? then UseOf(cfg.letters, '-').Needs? else UseOf(cfg.letters, '-').Needs? ==> atEnd)
    case Letters(front, last) => FrontOk(cfg, front) && LastOk(cfg, last, atEnd) && front + LastText(last) != "-"
  }

  ghost function LetterFound(cfg: Config, c: char): Found {
    match UseOf(cfg.letters, c)
    case Unknown => UnknownLetter(c)
    case Plain => Short(c, None)
    case May => Short(c, None)
    case Needs => MissingForLetter(c)
    case Gate => MissingForLetter(c)
  }

  /** What the letters of `front` say, and then `f`. */
  ghost function LettersFound(cfg: Config, front: string, f: Found): seq<Found> {
    seq(|front| + 1, k requires 0 <= k < |front| + 1 => if k < |front| then LetterFound(cfg, front[k]) else f)
  }

  ghost function LastFound(cfg: Config, e: Last): Found {
    match e
    case Bare(c) => LetterFound(cfg, c)
    case Attached(c, arg) => Short(c, Some(arg))
    case Separate(c, arg) => Short(c, Some(arg))
    case Hyphen(l) => LongFound(cfg, l)
    case Via(l, _) => LongFound(cfg, l)
  }

  ghost function LoneFound(cfg: Config, arg: Option<string>): Found {
    if arg.Some? then Short('-', arg) else LetterFound(cfg, '-')
  }

  /** What a piece says. */
  ghost function FoundIn(cfg: Config, p: Piece): seq<Found> {
    match p
    case Operand(_) => []
    case Lone(arg) => [LoneFound(cfg, arg)]
    case Letters(front, last) => LettersFound(cfg, front, LastFound(cfg, last))
  }

  /** A command line: pieces, and what follows a "--". */
  datatype Line = Line(pieces: seq<Piece>, rest: Option<seq<string>>)

  ghost predicate LineOk(cfg: Config, line: Line) {
    forall k :: 0 <= k < |line.pieces| ==> Ok(cfg, line.pieces[k], line.rest.None? && k == |line.pieces| - 1)
  }

  function AllWords(ps: seq<Piece>): seq<string> {
    if ps == [] then [] else Both(WordsOf(ps[0]), AllWords(ps[1..]))
  }

  function Dashes(line: Line): seq<string> {
    if line.rest.Some? then ["--"] else []
  }

  function After(line: Line): seq<string> {
    if line.rest.Some? then line.rest.value else []
  }

  /** The words of a command line. */
  function Words(line: Line): seq<string> {
    Both(AllWords(line.pieces), Both(Dashes(line), After(line)))
  }

  /** What the pieces say, and End. */
  ghost function Reports(cfg: Config, ps: seq<Piece>): seq<Found> {
    if ps == [] then [End]
    else if ps[0].Operand? then Reports(cfg, ps[1..])
    else FoundIn(cfg, ps[0]) + Reports(cfg, ps[1..])
  }

  function OptionWords(ps: seq<Piece>): seq<string> {
    if ps == [] then []
    else if ps[0].Operand? then OptionWords(ps[1..])
    else WordsOf(ps[0]) + OptionWords(ps[1..])
  }

  function Operands(ps: seq<Piece>): seq<string> {
    if ps == [] then []
    else if ps[0].Operand? then [ps[0].word] + Operands(ps[1..])
    else Operands(ps[1..])
  }

  // ----- words and texts in place ------------------------------------------------------

  /** `w` is at index `i` of `s`. */
  predicate Holds<T(==)>(s: seq<T>, i: nat, w: seq<T>) {
    i + |w| <= |s| && forall k :: 0 <= k < |w| ==> s[i + k] == w[k]
  }

  /** `s` ends with `w`, from index `i` on. */
  predicate Ends<T(==)>(s: seq<T>, i: nat, w: seq<T>) {
    i + |w| == |s| && Holds(s, i, w)
  }

  lemma HoldsSlice<T>(s: seq<T>, i: nat, w: seq<T>)
    requires Holds(s, i, w)
    ensures s[i..i + |w|] == w
  {
  }

  lemma EndsSlice<T>(s: seq<T>, i: nat, w: seq<T>)
    requires Ends(s, i, w)
    ensures s[i..] == w
  {
  }

  lemma EndsTail<T>(s: seq<T>, i: nat, x: T, w: seq<T>)
    requires Ends(s, i, [x] + w)
    ensures i < |s| && s[i] == x && Ends(s, i + 1, w) && s[i + 1..] == w
  {
    HoldsAppend(s, i, [x], w);
    assert [x][0] == x && s[i + 0] == x;
    EndsSlice(s, i + 1, w);
  }

  lemma HoldsAppend<T>(s: seq<T>, i: nat, a: seq<T>, b: seq<T>)
    requires Holds(s, i, a + b)
    ensures Holds(s, i, a) && Holds(s, i + |a|, b)
  {
    var w := a + b;
    forall k | 0 <= k < |a| ensures s[i + k] == a[k] {
      assert w[k] == a[k];
    }
    forall k | 0 <= k < |b| ensures s[i + |a| + k] == b[k] {
      assert w[|a| + k] == b[k];
    }
  }

  lemma EndsBoth<T>(s: seq<T>, i: nat, a: seq<T>, b: seq<T>)
    requires Ends(s, i, Both(a, b))
    ensures Holds(s, i, a) && Ends(s, i + |a|, b)
    ensures b == [] ==> i + |a| == |s|
  {
    BothIsAppend(a, b);
    HoldsAppend(s, i, a, b);
  }

  lemma HoldsOne<T>(s: seq<T>, i: nat, x: T, more: seq<T>)
    requires Holds(s, i, [x] + more)
    ensures i < |s| && s[i] == x && Holds(s, i + 1, more)
  {
    HoldsAppend(s, i, [x], more);
    assert [x][0] == x && s[i + 0] == x;
  }

  // ----- reading one piece -----------------------------------------------------------

  /** What is known of a letter, in the terms of the scanner. */
  lemma LetterUse(cfg: Config, c: char)
    ensures var k := Find(cfg.letters, c);
      match UseOf(cfg.letters, c)
      case Unknown => c == ':' || k == |cfg.letters|
      case Plain => c != ':' && k < |cfg.letters| && LetterAt(cfg, k + 1) != ':' && !(c == 'W' && LetterAt(cfg, k + 1) == ';')
      case Needs => c != ':' && k < |cfg.letters| && LetterAt(cfg, k + 1) == ':' && LetterAt(cfg, k + 2) != ':'
      case May => c != ':' && k < |cfg.letters| && LetterAt(cfg, k + 1) == ':' && LetterAt(cfg, k + 2) == ':'
      case Gate => c == 'W' && k < |cfg.letters| && LetterAt(cfg, k + 1) == ';'
  {
    var k := Find(cfg.letters, c);
    if k < |cfg.letters| {
      var tail := cfg.letters[k + 1..];
      assert tail != "" ==> tail[0] == cfg.letters[k + 1];
      assert |tail| > 1 ==> tail[1] == cfg.letters[k + 2];
      assert |tail| > 1 ==> tail[..2] == [tail[0], tail[1]];
    }
  }

  /** The first '=' of the text is the one that was written. */
  lemma FindEquals(l: LongText)
    requires '=' !in l.name
    ensures var eq := Find(Text(l), '=');
      && Text(l)[..eq] == l.name && (eq < |Text(l)| <==> l.value.Equals?)
      && (l.value.Equals? ==> Text(l)[eq + 1..] == l.value.text)
  {
    var t, eq := Text(l), Find(Text(l), '=');
    assert forall k :: 0 <= k < |l.name| ==> t[k] == l.name[k];
    if l.value.Equals? {
      assert t[|l.name|] == '=';
      assert eq == |l.name|;
    } else {
      assert t[..|t|] == t;
    }
  }

  lemma LongRead(cfg: Config, args: seq<string>, next: nat, l: LongText, atEnd: bool)
    requires LongOk(cfg, l, atEnd) && Holds(args, next, Extra(l)) && (atEnd ==> next + |Extra(l)| == |args|)
    ensures ReadLong(cfg, args, next, Text(l)) == Reading(LongFound(cfg, l), next + |Extra(l)|, 0)
  {
    FindEquals(l);
    if l.value.NextWord? {
      HoldsOne(args, next, l.value.word, []);
      assert args[next] == l.value.word;
    }
  }

  /** A place in a word of letters: behind `c`, which is at `off`, comes `more`. */
  predicate Here(args: seq<string>, i: nat, off: nat, c: char, more: string) {
    i < |args| && 0 < off < |args[i]| && args[i][off] == c && args[i][off + 1..] == more
  }

  /** Reading an option letter. */
  lemma LetterRead(cfg: Config, args: seq<string>, i: nat, off: nat, c: char, more: string, atEnd: bool)
    requires Here(args, i, off, c, more) && c != '-'
    requires atEnd ==> more == "" && i + 1 == |args|
    ensures var u, r := UseOf(cfg.letters, c), ReadOption(cfg, args, i, off);
      match u
      case Unknown => r == if more == "" then Reading(UnknownLetter(c), i + 1, 0) else Reading(UnknownLetter(c), i, off + 1)
      case Plain => r == if more == "" then Reading(Short(c, None), i + 1, 0) else Reading(Short(c, None), i, off + 1)
      case May => r == Reading(Short(c, if more == "" then None else Some(more)), i + 1, 0)
      case Needs =>
        if more != "" then r == Reading(Short(c, Some(more)), i + 1, 0)
        else if i + 1 < |args| then r == Reading(Short(c, Some(args[i + 1])), i + 2, 0)
        else r == Reading(MissingForLetter(c), i + 1, 0)
      case Gate =>
        if more != "" then r == ReadLong(cfg, args, i + 1, more)
        else if i + 1 < |args| then r == ReadLong(cfg, args, i + 2, args[i + 1])
        else r == Reading(MissingForLetter(c), i + 1, 0)
  {
    LetterUse(cfg, c);
    assert more == "" <==> off + 1 == |args[i]|;
  }

  lemma HyphenRead(cfg: Config, args: seq<string>, i: nat, off: nat, more: string)
    requires Here(args, i, off, '-', more)
    ensures ReadOption(cfg, args, i, off) == ReadLong(cfg, args, i + 1, more)
  {
  }

  /** Reading a W with a long option behind it. */
  lemma ViaRead(cfg: Config, args: seq<string>, i: nat, off: nat, l: LongText, atEnd: bool)
    requires UseOf(cfg.letters, 'W').Gate? && Here(args, i, off, 'W', Text(l)) && Text(l) != "" && LongOk(cfg, l, atEnd)
    requires Holds(args, i + 1, Extra(l)) && (atEnd ==> i + 1 + |Extra(l)| == |args|)
    ensures ReadOption(cfg, args, i, off) == Reading(LongFound(cfg, l), i + 1 + |Extra(l)|, 0)
  {
    LetterRead(cfg, args, i, off, 'W', Text(l), false);
    LongRead(cfg, args, i + 1, l, atEnd);
  }

  /** Reading a W with a long option in the next word. */
  lemma ViaNextRead(cfg: Config, args: seq<string>, i: nat, off: nat, l: LongText, atEnd: bool)
    requires UseOf(cfg.letters, 'W').Gate? && Here(args, i, off, 'W', "") && LongOk(cfg, l, atEnd)
    requires Holds(args, i + 1, [Text(l)] + Extra(l)) && (atEnd ==> i + 2 + |Extra(l)| == |args|)
    ensures ReadOption(cfg, args, i, off) == Reading(LongFound(cfg, l), i + 2 + |Extra(l)|, 0)
  {
    HoldsOne(args, i + 1, Text(l), Extra(l));
    LetterRead(cfg, args, i, off, 'W', "", false);
    LongRead(cfg, args, i + 2, l, atEnd);
  }

  lemma SeparateRead(cfg: Config, args: seq<string>, i: nat, off: nat, e: Last)
    requires e.Separate? && LastOk(cfg, e, false) && Here(args, i, off, e.c, "")
    requires Holds(args, i + 1, LastWords(e))
    ensures ReadOption(cfg, args, i, off) == Reading(LastFound(cfg, e), i + 1 + |LastWords(e)|, 0)
  {
    HoldsOne(args, i + 1, e.arg, []);
    LetterRead(cfg, args, i, off, e.c, "", false);
  }

  function FirstChar(e: Last): char {
    match e
    case Bare(c) => c
    case Attached(c, _) => c
    case Separate(c, _) => c
    case Hyphen(_) => '-'
    case Via(_, _) => 'W'
  }

  function Behind(e: Last): string {
    match e
    case Bare(_) => ""
    case Attached(_, arg) => arg
    case Separate(_, _) => ""
    case Hyphen(l) => Text(l)
    case Via(l, apart) => if apart then "" else Text(l)
  }

  lemma LastTextParts(e: Last)
    ensures LastText(e) == [FirstChar(e)] + Behind(e)
  {
  }

  /** Reading the end of a word of letters. */
  lemma LastRead(cfg: Config, args: seq<string>, i: nat, off: nat, e: Last, atEnd: bool)
    requires LastOk(cfg, e, atEnd) && Here(args, i, off, FirstChar(e), Behind(e))
    requires Holds(args, i + 1, LastWords(e)) && (atEnd ==> i + 1 + |LastWords(e)| == |args|)
    ensures ReadOption(cfg, args, i, off) == Reading(LastFound(cfg, e), i + 1 + |LastWords(e)|, 0)
  {
    match e
    case Bare(c) => LetterRead(cfg, args, i, off, c, "", atEnd);
    case Attached(c, arg) => LetterRead(cfg, args, i, off, c, arg, false);
    case Separate(_, _) => SeparateRead(cfg, args, i, off, e);
    case Hyphen(l) =>
      HyphenRead(cfg, args, i, off, Text(l));
      LongRead(cfg, args, i + 1, l, atEnd);
    case Via(l, apart) =>
      if apart {
        ViaNextRead(cfg, args, i, off, l, atEnd);
      } else {
        ViaRead(cfg, args, i, off, l, atEnd);
      }
  }

  lemma LettersStep(cfg: Config, front: string, f: Found)
    requires front != ""
    ensures LettersFound(cfg, front, f) == [LetterFound(cfg, front[0])] + LettersFound(cfg, front[1..], f)
  {
  }

  lemma FrontTail(cfg: Config, front: string)
    requires front != "" && FrontOk(cfg, front)
    ensures front == [front[0]] + front[1..] && FrontOk(cfg, front[1..])
    ensures front[0] != '-' && (UseOf(cfg.letters, front[0]).Unknown? || UseOf(cfg.letters, front[0]).Plain?)
  {
  }

  /** What the rest of a word of letters says, and where it ends. */
  ghost predicate SaysFrom(cfg: Config, args: seq<string>, i: nat, off: nat, found: seq<Found>, j: nat) {
    && i < |args| && off < |args[i]| && EndOfOption(cfg, args, i, off) == j
    && AnswersInOption(cfg, args, i, off) == Both(found, Answers(cfg, args, j, 0))
  }

  ghost predicate Reads(cfg: Config, args: seq<string>, i: nat, off: nat, found: seq<Found>, j: nat) {
    SaysFrom(cfg, args, i, off, found, j)
  }

  lemma {:induction false} SaysLast(cfg: Config, args: seq<string>, i: nat, off: nat, f: Found, j: nat)
    requires i < |args| && off < |args[i]| && ReadOption(cfg, args, i, off) == Reading(f, j, 0)
    ensures SaysFrom(cfg, args, i, off, [f], j)
  {
    BothIsAppend([f], Answers(cfg, args, j, 0));
  }

  lemma {:induction false} SaysMore(cfg: Config, args: seq<string>, i: nat, off: nat, f: Found, found: seq<Found>, j: nat)
    requires i < |args| && off < |args[i]| && ReadOption(cfg, args, i, off) == Reading(f, i, off + 1)
    requires SaysFrom(cfg, args, i, off + 1, found, j)
    ensures SaysFrom(cfg, args, i, off, [f] + found, j)
  {
    BothBehind([f], found, Answers(cfg, args, j, 0));
  }

  /** The letter `c` is at a place, and not the last of its word. */
  predicate InFront(args: seq<string>, i: nat, off: nat, c: char) {
    i < |args| && 0 < off && off + 1 < |args[i]| && args[i][off] == c
  }

  /** In front of others the letter `c` says `f`. */
  ghost predicate FrontSays(cfg: Config, c: char, f: Found) {
    forall args: seq<string>, i: nat, off: nat :: InFront(args, i, off, c) ==> ReadOption(cfg, args, i, off) == Reading(f, i, off + 1)
  }

  lemma FrontRead(cfg: Config, c: char)
    requires c != '-' && (UseOf(cfg.letters, c).Unknown? || UseOf(cfg.letters, c).Plain?)
    ensures FrontSays(cfg, c, LetterFound(cfg, c))
  {
    forall args: seq<string>, i: nat, off: nat | InFront(args, i, off, c)
      ensures ReadOption(cfg, args, i, off) == Reading(LetterFound(cfg, c), i, off + 1)
    {
      LetterRead(cfg, args, i, off, c, args[i][off + 1..], false);
    }
  }

  /** `text` ends argument `i` from offset `off` on, and `words` follow. */
  predicate Placed(args: seq<string>, i: nat, off: nat, text: string, words: seq<string>, atEnd: bool) {
    && i < |args| && 0 < off && Ends(args[i], off, text) && Holds(args, i + 1, words)
    && (atEnd ==> i + 1 + |words| == |args|)
  }

  /** Wherever `text` ends a word of letters and `words` follow, they say `found`. */
  ghost predicate Says(cfg: Config, text: string, words: seq<string>, atEnd: bool, found: seq<Found>) {
    forall args: seq<string>, i: nat, off: nat :: Placed(args, i, off, text, words, atEnd) ==>
      Reads(cfg, args, i, off, found, i + 1 + |words|)
  }

  lemma LetterSays(cfg: Config, c: char, f: Found, text: string, words: seq<string>, atEnd: bool, found: seq<Found>)
    requires Says(cfg, text, words, atEnd, found) && FrontSays(cfg, c, f) && text != ""
    ensures Says(cfg, [c] + text, words, atEnd, [f] + found)
  {
    forall args: seq<string>, i: nat, off: nat | Placed(args, i, off, [c] + text, words, atEnd)
      ensures Reads(cfg, args, i, off, [f] + found, i + 1 + |words|)
    {
      PlacedTail(args, i, off, c, text, words, atEnd);
      assert InFront(args, i, off, c);
      SaysMore(cfg, args, i, off, f, found, i + 1 + |words|);
    }
  }

  lemma PlacedTail(args: seq<string>, i: nat, off: nat, c: char, text: string, words: seq<string>, atEnd: bool)
    requires Placed(args, i, off, [c] + text, words, atEnd)
    ensures Placed(args, i, off + 1, text, words, atEnd)
    ensures off < |args[i]| && args[i][off] == c && args[i][off + 1..] == text
  {
    EndsTail(args[i], off, c, text);
  }

  lemma {:induction false} LettersSay(cfg: Config, front: string, text: string, words: seq<string>, atEnd: bool, f: Found)
    requires Says(cfg, text, words, atEnd, [f]) && FrontOk(cfg, front) && text != ""
    ensures Says(cfg, front + text, words, atEnd, LettersFound(cfg, front, f))
    decreases |front|
  {
    if front == "" {
      assert front + text == text;
      assert LettersFound(cfg, front, f) == [f];
    } else {
      FrontTail(cfg, front);
      LettersSay(cfg, front[1..], text, words, atEnd, f);
      FrontRead(cfg, front[0]);
      LetterSays(cfg, front[0], LetterFound(cfg, front[0]), front[1..] + text, words, atEnd, LettersFound(cfg, front[1..], f));
      Associate([front[0]], front[1..], text);
      LettersStep(cfg, front, f);
    }
  }

  lemma Associate<T>(a: seq<T>, b: seq<T>, c: seq<T>)
    ensures (a + b) + c == a + (b + c)
  {
  }

  /** Reading a "-" that is an option letter. */
  lemma LoneRead(cfg: Config, args: seq<string>, i: nat, arg: Option<string>, atEnd: bool)
    requires Ok(cfg, Lone(arg), atEnd)
    requires Holds(args, i, ["-"] + LoneWords(arg)) && (atEnd ==> i + 1 + |LoneWords(arg)| == |args|)
    ensures i < |args| && args[i] == "-" && SaysFrom(cfg, args, i, 0, [LoneFound(cfg, arg)], i + 1 + |LoneWords(arg)|)
  {
    HoldsOne(args, i, "-", LoneWords(arg));
    if arg.Some? {
      HoldsOne(args, i + 1, arg.value, []);
    }
    LetterUse(cfg, '-');
    SaysLast(cfg, args, i, 0, LoneFound(cfg, arg), i + 1 + |LoneWords(arg)|);
  }

  /** Wherever `text` ends a word of letters and `words` follow, they are one option. */
  ghost predicate IsOneOption(cfg: Config, text: string, words: seq<string>, atEnd: bool, f: Found) {
    forall args: seq<string>, i: nat, off: nat :: Placed(args, i, off, text, words, atEnd) ==>
      off < |args[i]| && ReadOption(cfg, args, i, off) == Reading(f, i + 1 + |words|, 0)
  }

  lemma OneSays(cfg: Config, text: string, words: seq<string>, atEnd: bool, f: Found)
    requires IsOneOption(cfg, text, words, atEnd, f)
    ensures Says(cfg, text, words, atEnd, [f])
  {
    forall args: seq<string>, i: nat, off: nat | Placed(args, i, off, text, words, atEnd)
      ensures Reads(cfg, args, i, off, [f], i + 1 + |words|)
    {
      SaysLast(cfg, args, i, off, f, i + 1 + |words|);
    }
  }

  /** The end of a word of letters says what it should. */
  lemma LastSays(cfg: Config, e: Last, atEnd: bool)
    requires LastOk(cfg, e, atEnd)
    ensures Says(cfg, LastText(e), LastWords(e), atEnd, [LastFound(cfg, e)])
  {
    forall args: seq<string>, i: nat, off: nat | Placed(args, i, off, LastText(e), LastWords(e), atEnd)
      ensures off < |args[i]|
      ensures ReadOption(cfg, args, i, off) == Reading(LastFound(cfg, e), i + 1 + |LastWords(e)|, 0)
    {
      LastReadHere(cfg, args, i, off, e, atEnd);
    }
    OneSays(cfg, LastText(e), LastWords(e), atEnd, LastFound(cfg, e));
  }

  lemma LastReadHere(cfg: Config, args: seq<string>, i: nat, off: nat, e: Last, atEnd: bool)
    requires LastOk(cfg, e, atEnd) && Placed(args, i, off, LastText(e), LastWords(e), atEnd)
    ensures off < |args[i]| && ReadOption(cfg, args, i, off) == Reading(LastFound(cfg, e), i + 1 + |LastWords(e)|, 0)
  {
    LastIsHere(args, i, off, e);
    LastRead(cfg, args, i, off, e, atEnd);
  }

  lemma LastIsHere(args: seq<string>, i: nat, off: nat, e: Last)
    requires i < |args| && 0 < off && Ends(args[i], off, LastText(e))
    ensures Here(args, i, off, FirstChar(e), Behind(e))
  {
    LastTextParts(e);
    EndsTail(args[i], off, FirstChar(e), Behind(e));
  }

  lemma DashText(arg: string, text: string)
    requires arg == "-" + text && text != "-" && text != ""
    ensures |arg| > 1 && arg[0] == '-' && Ends(arg, 1, text) && arg != "--"
  {
    assert text == arg[1..];
  }

  lemma DashPlaced(args: seq<string>, i: nat, text: string, words: seq<string>, atEnd: bool)
    requires text != "-" && text != "" && Holds(args, i, ["-" + text] + words) && (atEnd ==> i + 1 + |words| == |args|)
    ensures Placed(args, i, 1, text, words, atEnd) && |args[i]| > 1 && args[i][0] == '-' && args[i] != "--"
  {
    HoldsOne(args, i, "-" + text, words);
    DashText(args[i], text);
  }

  /** Reading a word of letters and the words that belong to it. */
  lemma WordRead(cfg: Config, args: seq<string>, i: nat, text: string, words: seq<string>, atEnd: bool, found: seq<Found>)
    requires Says(cfg, text, words, atEnd, found) && text != "-" && text != ""
    requires Holds(args, i, ["-" + text] + words) && (atEnd ==> i + 1 + |words| == |args|)
    ensures OptionSays(cfg, args, i, ["-" + text] + words, found)
  {
    DashPlaced(args, i, text, words, atEnd);
  }

  lemma LettersPiece(cfg: Config, front: string, e: Last, atEnd: bool)
    requires FrontOk(cfg, front) && LastOk(cfg, e, atEnd)
    ensures Says(cfg, front + LastText(e), LastWords(e), atEnd, LettersFound(cfg, front, LastFound(cfg, e)))
    ensures front + LastText(e) != ""
  {
    LastSays(cfg, e, atEnd);
    LastTextParts(e);
    LettersSay(cfg, front, LastText(e), LastWords(e), atEnd, LastFound(cfg, e));
  }

  /** Reading an option. */
  lemma OptionRead(cfg: Config, args: seq<string>, i: nat, p: Piece, atEnd: bool)
    requires Ok(cfg, p, atEnd) && !p.Operand? && Holds(args, i, WordsOf(p)) && (atEnd ==> i + |WordsOf(p)| == |args|)
    ensures OptionSays(cfg, args, i, WordsOf(p), FoundIn(cfg, p))
  {
    if p.Lone? {
      LoneRead(cfg, args, i, p.arg, atEnd);
    } else {
      LettersPiece(cfg, p.front, p.last, atEnd);
      WordRead(cfg, args, i, p.front + LastText(p.last), LastWords(p.last), atEnd, FoundIn(cfg, p));
    }
  }

  /** The words `w` of an option, which says `found`, are at index `i`. */
  ghost predicate OptionSays(cfg: Config, args: seq<string>, i: nat, w: seq<string>, found: seq<Found>) {
    && i < |args| && args[i] != "--" && IsOption(cfg, args[i]) && Holds(args, i, w)
    && SaysFrom(cfg, args, i, FirstOff(args[i]), found, i + |w|)
  }

  // ----- reading a line ----------------------------------------------------------------

  /** What a line says, and how it is sorted. */
  ghost predicate ReadAs(cfg: Config, args: seq<string>, i: nat, line: Line) {
    && Answers(cfg, args, i, 0) == Reports(cfg, line.pieces)
    && Split(cfg, args, i) == Parts(Both(OptionWords(line.pieces), Dashes(line)), Operands(line.pieces), After(line))
  }

  lemma {:induction false} EndRead(cfg: Config, args: seq<string>, i: nat, line: Line)
    requires line.pieces == [] && Ends(args, i, Words(line))
    ensures ReadAs(cfg, args, i, line)
  {
    assert Both([], Dashes(line)) == Dashes(line);
    if line.rest.Some? {
      assert Words(line) == ["--"] + line.rest.value by {
        BothIsAppend(["--"], line.rest.value);
      }
      EndsTail(args, i, "--", line.rest.value);
    } else {
      assert Words(line) == [];
    }
  }

  /** What `Answers` and `Split` are at an operand. */
  lemma {:induction false} OperandAnswers(cfg: Config, args: seq<string>, i: nat)
    requires i < |args| && !IsOption(cfg, args[i])
    ensures Answers(cfg, args, i, 0) == Answers(cfg, args, i + 1, 0)
    ensures Split(cfg, args, i) == Split(cfg, args, i + 1).(skipped := [args[i]] + Split(cfg, args, i + 1).skipped)
  {
  }

  /** What they are at an option. */
  lemma {:induction false} OptionAnswers(cfg: Config, args: seq<string>, i: nat)
    requires i < |args| && IsOption(cfg, args[i]) && args[i] != "--"
    ensures Answers(cfg, args, i, 0) == AnswersInOption(cfg, args, i, FirstOff(args[i]))
  {
  }

  lemma {:induction false} OptionSplit(cfg: Config, args: seq<string>, i: nat, w: seq<string>)
    requires i < |args| && IsOption(cfg, args[i]) && args[i] != "--" && Holds(args, i, w)
    requires EndOfOption(cfg, args, i, FirstOff(args[i])) == i + |w|
    ensures var p := Split(cfg, args, i + |w|); Split(cfg, args, i) == p.(options := w + p.options)
  {
    HoldsSlice(args, i, w);
  }

  lemma OperandIsNoOption(cfg: Config, w: string)
    requires Ok(cfg, Operand(w), false)
    ensures !IsOption(cfg, w)
  {
    assert "-" <= w <==> w != "" && w[0] == '-';
    assert |w| == 1 && w[0] == '-' ==> w == "-";
  }

  lemma {:induction false} OperandThenRead(cfg: Config, args: seq<string>, i: nat, w: string, line: Line)
    requires i < |args| && args[i] == w && Ok(cfg, Operand(w), false) && ReadAs(cfg, args, i + 1, line)
    ensures ReadAs(cfg, args, i, Line([Operand(w)] + line.pieces, line.rest))
  {
    OperandIsNoOption(cfg, w);
    OperandAnswers(cfg, args, i);
    OperandFirst(cfg, w, line.pieces);
  }

  /** An option and what comes after its words. */
  lemma {:induction false} OptionThen(cfg: Config, args: seq<string>, i: nat, w: seq<string>, found: seq<Found>)
    requires OptionSays(cfg, args, i, w, found)
    ensures Answers(cfg, args, i, 0) == found + Answers(cfg, args, i + |w|, 0)
    ensures var p := Split(cfg, args, i + |w|); Split(cfg, args, i) == p.(options := w + p.options)
  {
    OptionAnswers(cfg, args, i);
    OptionSplit(cfg, args, i, w);
    BothIsAppend(found, Answers(cfg, args, i + |w|, 0));
  }

  lemma {:induction false} OptionThenRead(cfg: Config, args: seq<string>, i: nat, p: Piece, line: Line)
    requires !p.Operand? && OptionSays(cfg, args, i, WordsOf(p), FoundIn(cfg, p)) && ReadAs(cfg, args, i + |WordsOf(p)|, line)
    ensures ReadAs(cfg, args, i, Line([p] + line.pieces, line.rest))
  {
    OptionThen(cfg, args, i, WordsOf(p), FoundIn(cfg, p));
    OptionFirst(cfg, p, line.pieces, Dashes(line));
  }

  lemma {:induction false} OperandFirst(cfg: Config, w: string, ps: seq<Piece>)
    ensures Reports(cfg, [Operand(w)] + ps) == Reports(cfg, ps) && OptionWords([Operand(w)] + ps) == OptionWords(ps)
    ensures Operands([Operand(w)] + ps) == [w] + Operands(ps)
  {
    assert ([Operand(w)] + ps)[1..] == ps;
  }

  lemma {:induction false} OptionFirst(cfg: Config, p: Piece, ps: seq<Piece>, dashes: seq<string>)
    requires !p.Operand?
    ensures Reports(cfg, [p] + ps) == FoundIn(cfg, p) + Reports(cfg, ps) && Operands([p] + ps) == Operands(ps)
    ensures Both(OptionWords([p] + ps), dashes) == WordsOf(p) + Both(OptionWords(ps), dashes)
  {
    assert ([p] + ps)[1..] == ps;
    BothBehind(WordsOf(p), OptionWords(ps), dashes);
  }

  lemma BothBehind<T>(a: seq<T>, b: seq<T>, c: seq<T>)
    ensures Both(a + b, c) == a + Both(b, c)
  {
  }

  /** The first piece of a line, and the line without it. */
  lemma {:induction false} FirstPiece(cfg: Config, line: Line)
    requires LineOk(cfg, line) && line.pieces != []
    ensures var more := Line(line.pieces[1..], line.rest);
      && line == Line([line.pieces[0]] + more.pieces, line.rest) && LineOk(cfg, more)
      && Ok(cfg, line.pieces[0], line.rest.None? && |line.pieces| == 1)
  {
    var more := Line(line.pieces[1..], line.rest);
    forall k | 0 <= k < |more.pieces|
      ensures Ok(cfg, more.pieces[k], more.rest.None? && k == |more.pieces| - 1)
    {
      assert more.pieces[k] == line.pieces[k + 1];
    }
  }

  lemma {:induction false} WordsFirst(line: Line)
    requires line.pieces != []
    ensures Words(line) == Both(WordsOf(line.pieces[0]), Words(Line(line.pieces[1..], line.rest)))
    ensures line.rest.None? && |line.pieces| == 1 ==> Words(Line(line.pieces[1..], line.rest)) == []
  {
    if line.rest.None? && |line.pieces| == 1 {
      NothingAfter(Line(line.pieces[1..], line.rest));
    }
    BothBoth(WordsOf(line.pieces[0]), AllWords(line.pieces[1..]), Both(Dashes(line), After(line)));
  }

  lemma BothBoth<T>(a: seq<T>, b: seq<T>, c: seq<T>)
    ensures Both(Both(a, b), c) == Both(a, Both(b, c))
  {
  }

  lemma {:induction false} NothingAfter(line: Line)
    requires line.rest.None? && line.pieces == []
    ensures Words(line) == []
  {
  }

  ghost predicate ReadsLine(cfg: Config, args: seq<string>, i: nat, line: Line) {
    ReadAs(cfg, args, i, line)
  }

  /** Wherever `words` end an argument vector, they are read as the line. */
  ghost predicate LineSays(cfg: Config, words: seq<string>, line: Line) {
    forall args: seq<string>, i: nat :: Ends(args, i, words) ==> ReadsLine(cfg, args, i, line)
  }

  /** `w` is at index `i`, and nothing behind it if it is to be at the end. */
  predicate Follows(args: seq<string>, i: nat, w: seq<string>, atEnd: bool) {
    Holds(args, i, w) && (atEnd ==> i + |w| == |args|)
  }

  /** Wherever `w` is in front of what is read as `more`, both are read as `line`. */
  ghost predicate PieceSays(cfg: Config, w: seq<string>, atEnd: bool, more: Line, line: Line) {
    forall args: seq<string>, i: nat :: Follows(args, i, w, atEnd) && ReadsLine(cfg, args, i + |w|, more) ==>
      ReadsLine(cfg, args, i, line)
  }

  lemma {:induction false} LineRead(cfg: Config, line: Line)
    requires LineOk(cfg, line)
    ensures LineSays(cfg, Words(line), line)
    decreases |line.pieces|
  {
    if line.pieces == [] {
      forall args: seq<string>, i: nat | Ends(args, i, Words(line)) ensures ReadsLine(cfg, args, i, line) {
        EndRead(cfg, args, i, line);
      }
    } else {
      var p, more := line.pieces[0], Line(line.pieces[1..], line.rest);
      FirstPiece(cfg, line);
      WordsFirst(line);
      LineRead(cfg, more);
      PieceRead(cfg, p, line.rest.None? && |line.pieces| == 1, more);
      PieceThenLine(cfg, WordsOf(p), Words(more), line.rest.None? && |line.pieces| == 1, more, line);
    }
  }

  lemma {:induction false} PieceThenLine(cfg: Config, w: seq<string>, words: seq<string>, atEnd: bool, more: Line, line: Line)
    requires PieceSays(cfg, w, atEnd, more, line) && LineSays(cfg, words, more) && (atEnd ==> words == [])
    ensures LineSays(cfg, Both(w, words), line)
  {
    forall args: seq<string>, i: nat | Ends(args, i, Both(w, words)) ensures ReadsLine(cfg, args, i, line) {
      EndsBoth(args, i, w, words);
      assert Follows(args, i, w, atEnd);
    }
  }

  lemma {:induction false} PieceRead(cfg: Config, p: Piece, atEnd: bool, more: Line)
    requires Ok(cfg, p, atEnd)
    ensures PieceSays(cfg, WordsOf(p), atEnd, more, Line([p] + more.pieces, more.rest))
  {
    forall args: seq<string>, i: nat | Follows(args, i, WordsOf(p), atEnd) && ReadsLine(cfg, args, i + |WordsOf(p)|, more)
      ensures ReadsLine(cfg, args, i, Line([p] + more.pieces, more.rest))
    {
      PieceThenRead(cfg, args, i, p, atEnd, more);
    }
  }

  lemma {:induction false} PieceThenRead(cfg: Config, args: seq<string>, i: nat, p: Piece, atEnd: bool, line: Line)
    requires Ok(cfg, p, atEnd) && Holds(args, i, WordsOf(p)) && (atEnd ==> i + |WordsOf(p)| == |args|)
    requires ReadAs(cfg, args, i + |WordsOf(p)|, line)
    ensures ReadAs(cfg, args, i, Line([p] + line.pieces, line.rest))
  {
    if p.Operand? {
      HoldsOne(args, i, p.word, []);
      OperandThenRead(cfg, args, i, p.word, line);
    } else {
      OptionRead(cfg, args, i, p, atEnd);
      OptionThenRead(cfg, args, i, p, line);
    }
  }

  /** Reading undoes writing: the words of a command line are reported as what was
      written, and sorted into the words of its options and its operands. */
  lemma ReadingUndoesWriting(cfg: Config, args: seq<string>, line: Line)
    requires LineOk(cfg, line) && args != [] && args[1..] == Words(line)
    ensures Answers(cfg, args, 1, 0) == Reports(cfg, line.pieces)
    ensures Split(cfg, args, 1) == Parts(OptionWords(line.pieces) + Dashes(line), Operands(line.pieces), After(line))
  {
    forall k | 0 <= k < |Words(line)| ensures args[1 + k] == Words(line)[k] {
      assert args[1..][k] == args[1 + k];
    }
    LineRead(cfg, line);
    assert Ends(args, 1, Words(line));
    BothIsAppend(OptionWords(line.pieces), Dashes(line));
  }

  // ----- every vector is a line ---------------------------------------------------------

  lemma AroundEquals(text: string, k: nat)
    requires k < |text| && text[k] == '='
    ensures text == text[..k] + "=" + text[k + 1..]
  {
  }

  lemma TextParts(text: string)
    ensures var eq := Find(text, '=');
      && '=' !in text[..eq] && (eq < |text| ==> text == text[..eq] + "=" + text[eq + 1..])
      && (eq == |text| ==> text[..eq] == text)
  {
    var eq := Find(text, '=');
    if eq < |text| {
      AroundEquals(text, eq);
    }
  }

  /** The long option that `text` writes, and how many of the next words it takes. */
  lemma AsLong(cfg: Config, text: string, more: seq<string>) returns (l: LongText, n: nat)
    ensures Text(l) == text && n <= |more| && Extra(l) == more[..n] && LongOk(cfg, l, n == |more|)
  {
    TextParts(text);
    var eq := Find(text, '=');
    var value;
    value, n := AsValue(cfg, text[..eq], if eq < |text| then Some(text[eq + 1..]) else None, more);
    l := LongText(text[..eq], value);
  }

  lemma AsValue(cfg: Config, name: string, text: Option<string>, more: seq<string>) returns (v: Value, n: nat)
    requires '=' !in name
    ensures n <= |more| && Extra(LongText(name, v)) == more[..n] && LongOk(cfg, LongText(name, v), n == |more|)
    ensures if text.Some? then v == Equals(text.value) else !v.Equals?
  {
    n := 0;
    if text.Some? {
      v := Equals(text.value);
    } else if Known(cfg, name) && Wants(cfg, name).RequiredArgument? && more != [] {
      v, n := NextWord(more[0]), 1;
    } else {
      v := Nothing;
    }
  }

  /** What ends a word with the letter `c`, which is not one for the front. */
  lemma AsLast(cfg: Config, c: char, text: string, more: seq<string>) returns (e: Last, n: nat)
    requires c == '-' || text == "" || !(UseOf(cfg.letters, c).Unknown? || UseOf(cfg.letters, c).Plain?)
    ensures LastText(e) == [c] + text && n <= |more| && LastWords(e) == more[..n] && LastOk(cfg, e, n == |more|)
  {
    var u := UseOf(cfg.letters, c);
    n := 0;
    if c == '-' {
      var l;
      l, n := AsLong(cfg, text, more);
      e := Hyphen(l);
    } else if u.Gate? && text != "" {
      var l;
      l, n := AsLong(cfg, text, more);
      e := Via(l, false);
    } else if u.Gate? && more != [] {
      var l, k := AsLong(cfg, more[0], more[1..]);
      e, n := Via(l, true), k + 1;
      assert [more[0]] + more[1..][..k] == more[..n];
    } else if u.Needs? && text == "" && more != [] {
      e, n := Separate(c, more[0]), 1;
    } else if text != "" {
      e := Attached(c, text);
    } else {
      e := Bare(c);
    }
  }

  /** The word of letters that `text` writes. */
  lemma {:induction false} AsLetters(cfg: Config, text: string, more: seq<string>) returns (front: string, e: Last, n: nat)
    requires text != ""
    ensures front + LastText(e) == text && n <= |more| && LastWords(e) == more[..n]
    ensures FrontOk(cfg, front) && LastOk(cfg, e, n == |more|)
    decreases |text|
  {
    var c := text[0];
    if c == '-' || |text| == 1 || !(UseOf(cfg.letters, c).Unknown? || UseOf(cfg.letters, c).Plain?) {
      front := "";
      e, n := AsLast(cfg, c, text[1..], more);
      assert "" + LastText(e) == text;
    } else {
      var tail;
      tail, e, n := AsLetters(cfg, text[1..], more);
      front := [c] + tail;
      assert text == [c] + (tail + LastText(e));
    }
  }

  lemma {:induction false} OkAtEnd(cfg: Config, p: Piece, atEnd: bool)
    requires Ok(cfg, p, atEnd)
    ensures Ok(cfg, p, true)
  {
  }

  lemma AsLone(cfg: Config, more: seq<string>) returns (p: Piece, n: nat)
    requires '-' in cfg.letters
    ensures !p.Operand? && n <= |more| && WordsOf(p) == ["-"] + more[..n] && Ok(cfg, p, n == |more|)
  {
    if UseOf(cfg.letters, '-').Needs? && more != [] {
      p, n := Lone(Some(more[0])), 1;
      assert more[..1] == [more[0]];
    } else {
      p, n := Lone(None), 0;
    }
  }

  /** The option that the word `w` and those after it write. */
  lemma AsOption(cfg: Config, w: string, more: seq<string>) returns (p: Piece, n: nat)
    requires IsOption(cfg, w) && w != "--"
    ensures !p.Operand? && n <= |more| && WordsOf(p) == [w] + more[..n] && Ok(cfg, p, n == |more|)
  {
    if |w| == 1 {
      assert w == "-";
      p, n := AsLone(cfg, more);
    } else {
      var text := w[1..];
      assert w == "-" + text;
      var front, e;
      front, e, n := AsLetters(cfg, text, more);
      p := Letters(front, e);
    }
  }

  lemma {:induction false} AddPiece(cfg: Config, p: Piece, atEnd: bool, line: Line)
    requires Ok(cfg, p, atEnd) && LineOk(cfg, line) && (atEnd ==> line == Line([], None))
    ensures var l := Line([p] + line.pieces, line.rest); LineOk(cfg, l) && Words(l) == WordsOf(p) + Words(line)
  {
    var l := Line([p] + line.pieces, line.rest);
    OkAtEnd(cfg, p, atEnd);
    forall k | 0 <= k < |l.pieces| ensures Ok(cfg, l.pieces[k], l.rest.None? && k == |l.pieces| - 1) {
      if k > 0 {
        assert l.pieces[k] == line.pieces[k - 1];
      }
    }
    WordsFirst(l);
    assert l.pieces[1..] == line.pieces;
    BothIsAppend(WordsOf(p), Words(line));
  }

  /** Whatever words there are, they are those of a command line. */
  lemma {:induction false} AsLine(cfg: Config, ws: seq<string>) returns (line: Line)
    ensures LineOk(cfg, line) && Words(line) == ws
    ensures ws == [] ==> line == Line([], None)
    decreases |ws|
  {
    if ws == [] {
      line := Line([], None);
    } else if ws[0] == "--" {
      line := Line([], Some(ws[1..]));
      assert Words(line) == ["--"] + ws[1..];
    } else {
      var p, n, atEnd := AsPiece(cfg, ws);
      var more := AsLine(cfg, ws[n..]);
      AddPiece(cfg, p, atEnd, more);
      line := Line([p] + more.pieces, more.rest);
      assert ws == ws[..n] + ws[n..];
    }
  }

  /** The piece that the first words write. */
  lemma AsPiece(cfg: Config, ws: seq<string>) returns (p: Piece, n: nat, atEnd: bool)
    requires ws != [] && ws[0] != "--"
    ensures 0 < n <= |ws| && WordsOf(p) == ws[..n] && Ok(cfg, p, atEnd) && (atEnd ==> n == |ws|)
  {
    if IsOption(cfg, ws[0]) {
      var k;
      p, k := AsOption(cfg, ws[0], ws[1..]);
      n, atEnd := k + 1, k == |ws| - 1;
      assert [ws[0]] + ws[1..][..k] == ws[..n];
    } else {
      p, n, atEnd := Operand(ws[0]), 1, false;
      assert ws[..1] == [ws[0]];
    }
  }

  /** So the reading of every argument vector is that of a line with its words. */
  lemma EveryVectorIsALine(cfg: Config, args: seq<string>) returns (line: Line)
    requires args != []
    ensures LineOk(cfg, line) && args[1..] == Words(line)
    ensures Answers(cfg, args, 1, 0) == Reports(cfg, line.pieces)
    ensures Split(cfg, args, 1) == Parts(OptionWords(line.pieces) + Dashes(line), Operands(line.pieces), After(line))
  {
    line := AsLine(cfg, args[1..]);
    ReadingUndoesWriting(cfg, args, line);
  }

  /** A whole run on the words of a command line: its reports are what was written, and
      the vector ends with the options in front of the operands. */
  method Scan(argv: array<string>, cfg: Config, ghost line: Line) returns (found: seq<Found>, optind: nat)
    requires argv.Length > 0 && LineOk(cfg, line) && argv[1..] == Words(line)
    modifies argv
    ensures found == Reports(cfg, line.pieces)
    ensures argv[..] == old(argv[..1]) + ((OptionWords(line.pieces) + Dashes(line)) + Operands(line.pieces)) + After(line)
    ensures optind == 1 + |OptionWords(line.pieces) + Dashes(line)|
  {
    assert argv[..][1..] == argv[1..] && argv[..][..1] == argv[..1];
    ReadingUndoesWriting(cfg, argv[..], line);
    found, optind := Run(argv, cfg);
  }
}
