/** The console's command line splitter (components/console/split_argv.c). */
module SplitArgv {
  import opened Machine

  const QUOTE: byte := 34
  const ESCAPE: byte := 92
  const SPACE: byte := 32

  type Text = seq<byte>

  // ---- What a command line means ----

  predicate Escapable(c: byte) {
    c == ESCAPE || c == QUOTE || c == SPACE
  }

  /** Reads up to the byte `end` that closes an argument: a quote or a space. A backslash stands for
      the next character if that is a backslash, a quote or a space, and else drops it. */
  function ReadArg(s: Text, end: byte): (r: (Text, Text))
    ensures |r.1| <= |s| && (s != [] ==> |r.1| < |s|)
    decreases |s|
  {
    if s == [] then ([], [])
    else if s[0] == end then ([], s[1..])
    else if s[0] == ESCAPE then
      if |s| == 1 then ([], []) else
      var (word, rest) := ReadArg(s[2..], end);
      (if Escapable(s[1]) then [s[1]] + word else word, rest)
    else
      var (word, rest) := ReadArg(s[1..], end);
      ([s[0]] + word, rest)
  }

  /** The first `max` arguments. */
  function Args(s: Text, max: nat): (args: seq<Text>)
    ensures |args| <= max
    decreases |s|
  {
    if s == [] || max == 0 then []
    else if s[0] == SPACE then Args(s[1..], max)
    else
      var (word, rest) := if s[0] == QUOTE then ReadArg(s[1..], QUOTE) else ReadArg(s, SPACE);
      [word] + Args(rest, max - 1)
  }

  // ---- Round trip ----

  predicate NulFree(s: Text) {
    0 !in s
  }

  function Escaped(s: Text): Text {
    if s == [] then []
    else (if s[0] == ESCAPE || s[0] == QUOTE then [ESCAPE, s[0]] else [s[0]]) + Escaped(s[1..])
  }

  function Quoted(s: Text): Text {
    [QUOTE] + Escaped(s) + [QUOTE]
  }

  /** The arguments, quoted and separated by spaces. */
  function Join(args: seq<Text>): Text {
    if args == [] then []
    else if |args| == 1 then Quoted(args[0])
    else Quoted(args[0]) + [SPACE] + Join(args[1..])
  }

  lemma {:induction false} ReadEscaped(s: Text, rest: Text)
    ensures ReadArg(Escaped(s) + [QUOTE] + rest, QUOTE) == (s, rest)
  {
    var all := Escaped(s) + [QUOTE] + rest;
    if s == [] {
      assert all == [QUOTE] + rest;
    } else {
      var tail := Escaped(s[1..]) + [QUOTE] + rest;
      ReadEscaped(s[1..], rest);
      if s[0] == ESCAPE || s[0] == QUOTE {
        assert all == [ESCAPE, s[0]] + tail;
        assert all[2..] == tail;
      } else {
        assert all == [s[0]] + tail;
        assert all[1..] == tail;
      }
      assert [s[0]] + s[1..] == s;
    }
  }

  /** A quoted argument is read off, and what follows it is split on. */
  lemma ArgsOfQuoted(arg: Text, rest: Text, max: nat)
    requires max > 0
    ensures Args(Quoted(arg) + rest, max) == [arg] + Args(rest, max - 1)
  {
    hide Escaped, ReadArg;
    var s := Quoted(arg) + rest;
    assert s[0] == QUOTE && s[1..] == Escaped(arg) + [QUOTE] + rest;
    ReadEscaped(arg, rest);
  }

  lemma ArgsOfSpace(rest: Text, max: nat)
    ensures Args([SPACE] + rest, max) == Args(rest, max)
  {
    assert ([SPACE] + rest)[1..] == rest;
  }

  lemma JoinMore(args: seq<Text>)
    requires args != []
    ensures Join(args) == Quoted(args[0]) + if |args| == 1 then [] else [SPACE] + Join(args[1..])
  {
    hide Quoted;
  }

  lemma FirstOf<T>(args: seq<T>, max: nat)
    requires args != [] && max > 0
    ensures args[..Min(|args|, max)] == [args[0]] + args[1..][..Min(|args| - 1, max - 1)]
  {
  }

  /** Splitting a quoted and escaped list gives the list back, empty arguments included, as far as
      there is room for it. */
  lemma {:induction false} SplitOfJoin(args: seq<Text>, max: nat)
    ensures Args(Join(args), max) == args[..Min(|args|, max)]
  {
    if args == [] || max == 0 {
    } else {
      hide *;
      JoinMore(args);
      FirstOf(args, max);
      SplitOfJoin(args[1..], max - 1);
      if |args| == 1 {
        ArgsOfQuoted(args[0], [], max);
        NoArgs(max - 1);
        assert args[1..] == [];
      } else {
        ArgsOfQuoted(args[0], [SPACE] + Join(args[1..]), max);
        ArgsOfSpace(Join(args[1..]), max - 1);
      }
    }
  }

  lemma NoArgs(max: nat)
    ensures Args([], max) == [] && Join([]) == []
  {
  }

  lemma {:induction false} JoinNulFree(args: seq<Text>)
    requires forall a | a in args :: NulFree(a)
    ensures NulFree(Join(args))
  {
    if args != [] {
      EscapedNulFree(args[0]);
      JoinNulFree(args[1..]);
    }
  }

  lemma {:induction false} EscapedNulFree(s: Text)
    requires NulFree(s)
    ensures NulFree(Escaped(s))
  {
    if s != [] {
      EscapedNulFree(s[1..]);
    }
  }

  lemma {:induction false} ReadArgNulFree(s: Text, end: byte)
    requires NulFree(s)
    ensures NulFree(ReadArg(s, end).0) && NulFree(ReadArg(s, end).1)
    decreases |s|
  {
    if s == [] || s[0] == end {
    } else if s[0] == ESCAPE {
      if |s| > 1 {
        ReadArgNulFree(s[2..], end);
      }
    } else {
      ReadArgNulFree(s[1..], end);
    }
  }

  lemma {:induction false} ArgsNulFree(s: Text, max: nat)
    requires NulFree(s)
    ensures forall a | a in Args(s, max) :: NulFree(a)
    decreases |s|
  {
    if s == [] || max == 0 {
    } else if s[0] == SPACE {
      ArgsNulFree(s[1..], max);
    } else {
      var (word, rest) := if s[0] == QUOTE then ReadArg(s[1..], QUOTE) else ReadArg(s, SPACE);
      if s[0] == QUOTE {
        ReadArgNulFree(s[1..], QUOTE);
      } else {
        ReadArgNulFree(s, SPACE);
      }
      ArgsNulFree(rest, max - 1);
    }
  }

  /** A quoted and escaped list, stored as a C string, is split into the list again. */
  lemma RoundTrip(args: seq<Text>, mem: Text, argvSize: nat)
    requires (forall a | a in args :: NulFree(a)) && |args| < argvSize
    requires Join(args) + [0] <= mem
    ensures Args(CText(mem), argvSize - 1) == args
  {
    JoinNulFree(args);
    CTextOf(Join(args), mem);
    SplitOfJoin(args, argvSize - 1);
    assert args[..|args|] == args;
  }

  lemma {:induction false} CTextOf(text: Text, mem: Text)
    requires NulFree(text) && text + [0] <= mem
    ensures CText(mem) == text
  {
    assert mem[0] == (text + [0])[0];
    if text != [] {
      assert text == [text[0]] + text[1..];
      assert (text + [0])[1..] == text[1..] + [0];
      CTextOf(text[1..], mem[1..]);
    }
  }

  // ---- Every way to write an argument ----

  /** A piece of an argument: a byte as it is, one behind a backslash, or a backslash before any other byte. */
  datatype Piece = Plain(c: byte) | Literal(c: byte) | Dropped(c: byte)

  /** The bytes are '"' (34), backslash (92), space (32), and the one that ends the argument. */
  ghost predicate Fits(p: Piece, end: byte) {
    match p
    case Plain(c) => c != 92 && c != end
    case Literal(c) => c == 92 || c == 34 || c == 32
    case Dropped(c) => c != 92 && c != 34 && c != 32
  }

  ghost predicate AllFit(ps: seq<Piece>, end: byte) {
    forall p | p in ps :: Fits(p, end)
  }

  ghost function Written(ps: seq<Piece>): Text {
    if ps == [] then [] else (if ps[0].Plain? then [ps[0].c] else [92, ps[0].c]) + Written(ps[1..])
  }

  /** What the pieces stand for: a backslash before a byte that needs none drops both. */
  ghost function Meant(ps: seq<Piece>): Text {
    if ps == [] then [] else (if ps[0].Dropped? then [] else [ps[0].c]) + Meant(ps[1..])
  }

  /** How the text of an argument goes on: it is ended by its end byte, or by the end of the line, where a last
      backslash is dropped. */
  ghost predicate Ends(tail: Text, end: byte, rest: Text) {
    tail == [end] + rest || (rest == [] && (tail == [] || tail == [92]))
  }

  lemma OnePiece(p: Piece, more: seq<Piece>, tail: Text)
    ensures Written([p] + more) + tail == (if p.Plain? then [p.c] else [92, p.c]) + (Written(more) + tail)
  {
    assert ([p] + more)[1..] == more;
  }

  lemma {:induction false} ReadPieces(ps: seq<Piece>, end: byte, tail: Text, rest: Text)
    requires AllFit(ps, end) && Ends(tail, end, rest) && (end == 34 || end == 32)
    ensures ReadArg(Written(ps) + tail, end) == (Meant(ps), rest)
  {
    if ps == [] {
      ReadEnd(end, tail, rest);
      assert [] + tail == tail;
    } else {
      var more := ps[1..];
      assert Fits(ps[0], end) && AllFit(more, end) && ps == [ps[0]] + more;
      assert Meant(ps) == (if ps[0].Dropped? then [] else [ps[0].c]) + Meant(more);
      hide *;
      ReadPieces(more, end, tail, rest);
      OnePiece(ps[0], more, tail);
      ReadPiece(ps[0], end, Written(more) + tail);
    }
  }

  lemma ReadEnd(end: byte, tail: Text, rest: Text)
    requires Ends(tail, end, rest) && (end == 34 || end == 32)
    ensures ReadArg(tail, end) == ([], rest)
  {
    assert tail == [end] + rest ==> tail[1..] == rest;
  }

  lemma ReadPiece(p: Piece, end: byte, s: Text)
    requires Fits(p, end) && (end == 34 || end == 32)
    ensures var (word, rest) := ReadArg(s, end);
            ReadArg((if p.Plain? then [p.c] else [92, p.c]) + s, end)
            == ((if p.Dropped? then [] else [p.c]) + word, rest)
  {
    var all := (if p.Plain? then [p.c] else [92, p.c]) + s;
    assert p.Plain? ==> all[1..] == s;
    assert !p.Plain? ==> all[2..] == s;
    assert [] + ReadArg(s, end).0 == ReadArg(s, end).0;
  }

  /** An argument that does not begin with a quote reads as its pieces say, up to a space or the end of the line. */
  lemma BareArg(ps: seq<Piece>, tail: Text, rest: Text, max: nat)
    requires AllFit(ps, 32) && Ends(tail, 32, rest) && max > 0
    requires if ps == [] then tail == [92] else ps[0] != Plain(34)
    ensures Args(Written(ps) + tail, max) == [Meant(ps)] + Args(rest, max - 1)
  {
    ReadPieces(ps, 32, tail, rest);
    var s := Written(ps) + tail;
    assert ps != [] ==> Fits(ps[0], 32);
    assert s != [] && s[0] != SPACE && s[0] != QUOTE;
    hide ReadArg, Written, Meant, Ends;
  }

  /** An argument in quotes reads as its pieces say, up to the next quote or the end of the line. */
  lemma QuoteArg(ps: seq<Piece>, tail: Text, rest: Text, max: nat)
    requires AllFit(ps, 34) && Ends(tail, 34, rest) && max > 0
    ensures Args([34] + (Written(ps) + tail), max) == [Meant(ps)] + Args(rest, max - 1)
  {
    ReadPieces(ps, 34, tail, rest);
    var s := [34] + (Written(ps) + tail);
    assert s[1..] == Written(ps) + tail;
    hide ReadArg, Written, Meant, Ends;
  }

  /** There is no other text: whatever follows is some pieces and an end. */
  lemma {:induction false} EveryText(s: Text, end: byte) returns (ps: seq<Piece>, tail: Text, rest: Text)
    requires end == 34 || end == 32
    ensures AllFit(ps, end) && Ends(tail, end, rest) && s == Written(ps) + tail
    decreases |s|
  {
    if s == [] || s[0] == end || s == [92] {
      ps, tail, rest := [], s, if s != [] && s[0] == end then s[1..] else [];
      assert s == [] || s[0] != end || s == [end] + rest;
    } else {
      var p, left := FirstPiece(s, end);
      var more;
      more, tail, rest := EveryText(left, end);
      ps := [p] + more;
      OnePiece(p, more, tail);
      hide Fits, Written, Ends;
    }
  }

  lemma FirstPiece(s: Text, end: byte) returns (p: Piece, left: Text)
    requires (end == 34 || end == 32) && s != [] && s[0] != end && s != [92]
    ensures Fits(p, end) && |left| < |s| && s == (if p.Plain? then [p.c] else [92, p.c]) + left
  {
    if s[0] != 92 {
      p, left := Plain(s[0]), s[1..];
    } else {
      p := if s[1] == 92 || s[1] == 34 || s[1] == 32 then Literal(s[1]) else Dropped(s[1]);
      left := s[2..];
      assert s == [s[0], s[1]] + left;
    }
  }

  /** A word with a backslash before each backslash, quote and space. */
  ghost function Bare(word: Text): (ps: seq<Piece>)
    ensures |ps| == |word| && forall i | 0 <= i < |word| ::
              ps[i] == if word[i] == 92 || word[i] == 34 || word[i] == 32 then Literal(word[i]) else Plain(word[i])
  {
    seq(|word|, i requires 0 <= i < |word| =>
      if word[i] == 92 || word[i] == 34 || word[i] == 32 then Literal(word[i]) else Plain(word[i]))
  }

  lemma {:induction false} MeantBare(word: Text)
    ensures AllFit(Bare(word), 32) && Meant(Bare(word)) == word
  {
    if word != [] {
      MeantBare(word[1..]);
      assert Bare(word)[1..] == Bare(word[1..]);
      assert word == [word[0]] + word[1..];
    }
  }

  ghost function JoinBare(words: seq<Text>): Text {
    if words == [] then []
    else Written(Bare(words[0])) + (if |words| == 1 then [] else [32] + JoinBare(words[1..]))
  }

  /** Words that are not empty also come back without quotes. */
  lemma {:induction false} SplitOfBare(words: seq<Text>, max: nat)
    requires forall i | 0 <= i < |words| :: words[i] != []
    ensures Args(JoinBare(words), max) == words[..Min(|words|, max)]
  {
    if words == [] {
      NoArgs(max);
    } else if max > 0 {
      var rest := if |words| == 1 then [] else JoinBare(words[1..]);
      var tail := if |words| == 1 then [] else [32] + rest;
      assert JoinBare(words) == Written(Bare(words[0])) + tail && Ends(tail, 32, rest);
      assert words[0] != [] && Bare(words[0])[0] != Plain(34);
      MeantBare(words[0]);
      NoArgs(max - 1);
      hide *;
      FirstOf(words, max);
      BareArg(Bare(words[0]), tail, rest, max);
      SplitOfBare(words[1..], max - 1);
      assert |words| == 1 ==> words[1..] == [];
    }
  }

  // ---- The in-place state machine ----

  datatype SplitState = Space | Arg | QuotedArg | ArgEscaped | QuotedArgEscaped

  /** What the state machine will still find: the arguments from here on, when it has read `word` of
      the one it is in and `s` is unread. */
  ghost function Remaining(state: SplitState, word: Text, s: Text, max: nat): seq<Text>
    requires state != Space ==> max > 0
  {
    match state
    case Space => Args(s, max)
    case Arg => FinishArg(word, s, SPACE, max)
    case QuotedArg => FinishArg(word, s, QUOTE, max)
    case ArgEscaped => FinishArg(word, [ESCAPE] + s, SPACE, max)
    case QuotedArgEscaped => FinishArg(word, [ESCAPE] + s, QUOTE, max)
  }

  ghost function FinishArg(word: Text, s: Text, end: byte, max: nat): seq<Text>
    requires max > 0
  {
    var (more, rest) := ReadArg(s, end);
    [word + more] + Args(rest, max - 1)
  }

  /** Arguments as they lie in memory, each with its terminating NUL. */
  ghost function Flat(args: seq<Text>): Text {
    if args == [] then [] else Flat(args[..|args| - 1]) + args[|args| - 1] + [0]
  }

  /** The switch over the states: the next state, the character to put out if any, and whether an
      argument has ended. */
  function Switch(state: SplitState, c: byte): (r: (SplitState, Option<byte>, bool)) {
    match state
    case Space =>
      if c == SPACE then (Space, None, false)
      else if c == QUOTE then (QuotedArg, None, false)
      else if c == ESCAPE then (ArgEscaped, None, false)
      else (Arg, Some(c), false)
    case QuotedArg =>
      if c == QUOTE then (Space, Some(0), true)
      else if c == ESCAPE then (QuotedArgEscaped, None, false)
      else (QuotedArg, Some(c), false)
    case ArgEscaped => (Arg, if Escapable(c) then Some(c) else None, false)
    case QuotedArgEscaped => (QuotedArg, if Escapable(c) then Some(c) else None, false)
    case Arg =>
      if c == SPACE then (Space, Some(0), true)
      else if c == ESCAPE then (ArgEscaped, None, false)
      else (Arg, Some(c), false)
  }

  ghost function Grown(word: Text, out: Option<byte>): Text {
    if out.Some? then word + [out.value] else word
  }

  /** One turn of the state machine moves over `s[0]` and nothing else. */
  lemma RemainingStep(state: SplitState, word: Text, s: Text, max: nat)
    requires s != [] && max > 0 && (state == Space ==> word == [])
    ensures var (next, out, ended) := Switch(state, s[0]);
            Remaining(state, word, s, max) ==
            if ended then [word] + Remaining(Space, [], s[1..], max - 1)
            else Remaining(next, Grown(word, out), s[1..], max)
  {
    var c, t := s[0], s[1..];
    match state
    case Space =>
      assert s == [c] + t;
      if c == QUOTE {
        assert [] + ReadArg(t, QUOTE).0 == ReadArg(t, QUOTE).0;
      } else if c != SPACE {
        assert [] + ReadArg(s, SPACE).0 == ReadArg(s, SPACE).0;
        assert [] + [c] == [c];
        FinishStep([], s, SPACE, max);
      }
    case Arg => FinishStep(word, s, SPACE, max);
    case QuotedArg => FinishStep(word, s, QUOTE, max);
    case ArgEscaped => FinishEscape(word, s, SPACE, max);
    case QuotedArgEscaped => FinishEscape(word, s, QUOTE, max);
  }

  lemma FinishStep(word: Text, s: Text, end: byte, max: nat)
    requires s != [] && max > 0
    ensures FinishArg(word, s, end, max) ==
            if s[0] == end then [word] + Args(s[1..], max - 1)
            else if s[0] == ESCAPE then FinishArg(word, [ESCAPE] + s[1..], end, max)
            else FinishArg(word + [s[0]], s[1..], end, max)
  {
    if s[0] == end {
      assert word + [] == word;
    } else if s[0] == ESCAPE {
      assert [ESCAPE] + s[1..] == s;
    } else {
      var more := ReadArg(s[1..], end).0;
      assert word + ([s[0]] + more) == word + [s[0]] + more;
    }
  }

  lemma FinishEscape(word: Text, s: Text, end: byte, max: nat)
    requires s != [] && max > 0 && end != ESCAPE
    ensures FinishArg(word, [ESCAPE] + s, end, max)
         == FinishArg(if Escapable(s[0]) then word + [s[0]] else word, s[1..], end, max)
  {
    var all := [ESCAPE] + s;
    assert all[1] == s[0] && all[2..] == s[1..];
    var more := ReadArg(s[1..], end).0;
    assert word + ([s[0]] + more) == word + [s[0]] + more;
  }

  /** At the end of the line an argument that was begun is an argument. */
  lemma RestIsNothing(state: SplitState, word: Text, s: Text, max: nat)
    requires state != Space ==> max > 0
    requires s == [] || (state == Space && max == 0)
    ensures Remaining(state, word, s, max) == if state == Space then [] else [word]
  {
    assert word + [] == word;
  }

  lemma RemainingAtStart(s: Text, max: nat)
    ensures Remaining(Space, [], s, max) == Args(s, max)
  {
  }

  lemma EmptyFlat()
    ensures Memory([], []) == [] && PointTo([], [])
  {
  }

  lemma FlatAppend(args: seq<Text>, word: Text)
    ensures Flat(args + [word]) == Flat(args) + word + [0]
  {
    assert (args + [word])[..|args|] == args;
  }

  /** The text before the first NUL. */
  ghost function CText(mem: Text): (t: Text)
    ensures |t| <= |mem| && NulFree(t)
    ensures t == mem[..|t|] && (|t| < |mem| ==> mem[|t|] == 0)
  {
    if mem == [] || mem[0] == 0 then [] else [mem[0]] + CText(mem[1..])
  }

  /** A terminated string in memory. */
  ghost predicate StringAt(mem: Text, p: nat, word: Text) {
    p + |word| < |mem| && mem[p..p + |word|] == word && mem[p + |word|] == 0
  }

  /** Where the `k`-th argument starts. */
  ghost function Offset(args: seq<Text>, k: nat): nat
    requires k <= |args|
  {
    |Flat(args[..k])|
  }

  lemma {:induction false} FlatHolds(args: seq<Text>, mem: Text, k: nat)
    requires Flat(args) <= mem && k < |args|
    ensures StringAt(mem, Offset(args, k), args[k])
    decreases |args|
  {
    hide Flat, StringAt;
    var init, last := args[..|args| - 1], args[|args| - 1];
    assert args == init + [last];
    FlatAppend(init, last);
    if k < |init| {
      PrefixOn(Flat(init), last + [0], Flat(args), mem);
      FlatHolds(init, mem, k);
      assert init[..k] == args[..k];
    } else {
      assert args[..k] == init;
      EndHolds(Flat(init), last, mem);
    }
  }

  lemma PrefixOn(front: Text, back: Text, all: Text, mem: Text)
    requires front + back == all <= mem
    ensures front <= mem
  {
  }

  lemma EndHolds(front: Text, word: Text, mem: Text)
    requires front + word + [0] <= mem
    ensures StringAt(mem, |front|, word)
  {
    var all := front + word + [0];
    assert forall i | |front| <= i < |front| + |word| :: mem[i] == all[i] == word[i - |front|];
    assert mem[|front| + |word|] == all[|front| + |word|];
  }

  /** A turn keeps what the line is going to be split into. */
  lemma TurnKeeps(text: Text, at: nat, max: nat, done: seq<Text>, state: SplitState, word: Text)
    requires at < |text| && |done| < max && (state == Space ==> word == [])
    ensures var (next, out, ended) := Switch(state, text[at]);
            done + Remaining(state, word, text[at..], max - |done|) ==
            if ended then (done + [word]) + Remaining(Space, [], text[at + 1..], max - |done| - 1)
            else done + Remaining(next, Grown(word, out), text[at + 1..], max - |done|)
  {
    RemainingStep(state, word, text[at..], max - |done|);
    assert text[at..][1..] == text[at + 1..];
    var more := Remaining(Space, [], text[at + 1..], max - |done| - 1);
    assert done + ([word] + more) == (done + [word]) + more;
  }

  method Put<T>(a: array<T>, at: nat, x: T)
    requires at < a.Length
    modifies a
    ensures a[..at + 1] == old(a[..at]) + [x]
    ensures forall i | at < i < a.Length :: a[i] == old(a[i])
  {
    a[at] := x;
  }

  /** The pointers point to where the arguments start. */
  ghost predicate PointTo(ptrs: seq<Option<nat>>, args: seq<Text>) {
    |ptrs| == |args| && forall k | 0 <= k < |args| :: ptrs[k] == Some(Offset(args, k))
  }

  lemma PointToAppend(ptrs: seq<Option<nat>>, args: seq<Text>, word: Text)
    requires PointTo(ptrs, args)
    ensures PointTo(ptrs + [Some(|Flat(args)|)], args + [word])
  {
    forall k | 0 <= k < |args| + 1
      ensures (ptrs + [Some(|Flat(args)|)])[k] == Some(Offset(args + [word], k))
    {
      assert (args + [word])[..k] == args[..k];
      assert args[..|args|] == args;
    }
  }

  /** What lies in memory behind the arguments ended so far. */
  ghost function Memory(done: seq<Text>, word: Text): Text {
    Flat(done) + word
  }

  lemma MemoryTurn(done: seq<Text>, word: Text, state: SplitState, c: byte)
    requires state == Space ==> word == []
    ensures var (next, out, ended) := Switch(state, c);
            && (state == Space ==> |Memory(done, word)| == |Flat(done)|)
            && (out == None ==> Grown(word, out) == word)
            && (ended ==> Memory(done + [word], []) == Memory(done, word) + [0])
            && (!ended && out.Some? ==> Memory(done, Grown(word, out)) == Memory(done, word) + [out.value])
            && (next == Space && !ended ==> Grown(word, out) == [])
  {
    FlatAppend(done, word);
  }

  /** The loop over the line. The ghost results are the arguments ended so far and the part read of
      the one that has not ended. */
  method Scan(line: array<byte>, argv: array<Option<nat>>, max: nat)
    returns (argc: nat, state: SplitState, nextArgStart: nat, outPtr: nat, ghost done: seq<Text>, ghost word: Text)
    requires max < argv.Length && |CText(line[..])| < line.Length
    modifies line, argv
    ensures argc == |done| <= max && outPtr <= |CText(old(line[..]))|
    ensures state == Space ==> word == []
    ensures state != Space ==> argc < max && nextArgStart == |Flat(done)|
    ensures Args(CText(old(line[..])), max) == if state == Space then done else done + [word]
    ensures line[..outPtr] == Memory(done, word)
    ensures PointTo(argv[..argc], done)
    ensures forall k | argc <= k < argv.Length :: argv[k] == old(argv[k])
    ensures forall i | |CText(old(line[..]))| < i < line.Length :: line[i] == old(line[i])
  {
    hide Args, Remaining, Flat, Memory, CText, PointTo, Switch, Grown;
    EmptyFlat();
    ghost var text := CText(line[..]);
    ghost var ptrs: seq<Option<nat>> := [];
    RemainingAtStart(text, max);
    done, word, state, argc := [], [], Space, 0;
    nextArgStart, outPtr := 0, 0;
    var inPtr := 0;
    while argc < max
      invariant argc == |done| <= max && outPtr <= inPtr <= |text|
      invariant state == Space ==> word == []
      invariant state != Space ==> argc < max && nextArgStart == |Flat(done)|
      invariant state == ArgEscaped || state == QuotedArgEscaped ==> outPtr < inPtr
      invariant Args(text, max) == done + Remaining(state, word, text[inPtr..], max - argc)
      invariant line[..outPtr] == Memory(done, word)
      invariant forall i | inPtr <= i < line.Length :: line[i] == old(line[i])
      invariant argv[..argc] == ptrs && PointTo(ptrs, done)
      invariant forall k | argc <= k < argv.Length :: argv[k] == old(argv[k])
      decreases line.Length - inPtr
    {
      var charIn := line[inPtr];
      if charIn == 0 {
        break;
      }
      TurnKeeps(text, inPtr, max, done, state, word);
      SwitchBounds(state, charIn);
      MemoryTurn(done, word, state, charIn);
      var (next, charOut, ended) := Switch(state, charIn);
      if state == Space && next != Space {
        nextArgStart := outPtr;
      }
      state := next;
      if ended {
        PointToAppend(ptrs, done, word);
        ptrs := ptrs + [Some(nextArgStart)];
        done, word := done + [word], [];
        Put(argv, argc, Some(nextArgStart));
        argc := argc + 1;
      } else {
        word := Grown(word, charOut);
      }
      if charOut.Some? {
        Put(line, outPtr, charOut.value);
        outPtr := outPtr + 1;
      }
      inPtr := inPtr + 1;
    }
    RestIsNothing(state, word, text[inPtr..], max - argc);
  }

  lemma SwitchBounds(state: SplitState, c: byte)
    ensures var (next, out, ended) := Switch(state, c);
            && (ended <==> state != Space && next == Space)
            && (ended ==> out == Some(0))
            && (state == Space && next == Space ==> out == None)
            && (next == ArgEscaped || next == QuotedArgEscaped ==> out == None)
  {
  }

  method EspConsoleSplitArgv(line: array<byte>, argv: array<Option<nat>>, argvSize: nat) returns (argc: nat)
    requires 0 < argvSize <= argv.Length
    requires |CText(line[..])| < line.Length
    modifies line, argv
    ensures var args := Args(CText(old(line[..])), argvSize - 1);
            && argc == |args| < argvSize
            && argv[argc] == None
            && forall k | 0 <= k < argc :: argv[k].Some? && StringAt(line[..], argv[k].value, args[k])
    ensures forall k | argc < k < argv.Length :: argv[k] == old(argv[k])
    ensures forall i | |CText(old(line[..]))| < i < line.Length :: line[i] == old(line[i])
  {
    hide Args, Flat, CText, PointTo, StringAt;
    var state, nextArgStart, outPtr;
    ghost var done, word;
    argc, state, nextArgStart, outPtr, done, word := Scan(line, argv, argvSize - 1);
    Put(line, outPtr, 0);
    FlatAppend(done, word);
    if state != Space && argc < argvSize - 1 {
      PointToAppend(argv[..argc], done, word);
      argv[argc] := Some(nextArgStart);
      argc := argc + 1;
      done := done + [word];
    }
    argv[argc] := None;
    AllHeld(done, argv[..argc], line[..]);
  }

  lemma AllHeld(args: seq<Text>, ptrs: seq<Option<nat>>, mem: Text)
    requires Flat(args) <= mem && PointTo(ptrs, args)
    ensures forall k | 0 <= k < |args| :: ptrs[k].Some? && StringAt(mem, ptrs[k].value, args[k])
  {
    forall k | 0 <= k < |args|
      ensures ptrs[k].Some? && StringAt(mem, ptrs[k].value, args[k])
    {
      FlatHolds(args, mem, k);
    }
  }
}
