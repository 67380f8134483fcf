/**
 * The command side of Projekt/Core/Src/command_handler.cpp: cutting frame data
 * into words (`Split`, `ParseCommands`) and the table-driven dispatch of
 * `ExecuteCommand`.  The command callbacks themselves are left abstract: a
 * dispatch is recorded as the callback it would call and the words it would get.
 */
module Commands {
  import opened Bytes
  import opened Wrappers

  /** The first position at or after `from` holding `x` or `y`, or `|s|` when there is none (`std::find`). */
  function FirstOf(s: seq<byte>, from: nat, x: byte, y: byte): (i: nat)
    requires from <= |s|
    ensures from <= i <= |s|
    ensures i < |s| ==> s[i] == x || s[i] == y
    ensures forall t :: from <= t < i ==> s[t] != x && s[t] != y
    decreases |s| - from
  {
    if from == |s| || s[from] == x || s[from] == y then from else FirstOf(s, from + 1, x, y)
  }

  /** A position holding `x` or `y` with neither before it is the one `FirstOf` finds. */
  lemma {:induction false} FirstOfAt(s: seq<byte>, from: nat, x: byte, y: byte, i: nat)
    requires from <= i <= |s| && (i < |s| ==> s[i] == x || s[i] == y)
    requires forall t :: from <= t < i ==> s[t] != x && s[t] != y
    ensures FirstOf(s, from, x, y) == i
    decreases i - from
  {
    if from < i {
      FirstOfAt(s, from + 1, x, y, i);
    }
  }

  // ---------------------------------------------------------------------------
  // Split
  // ---------------------------------------------------------------------------

  /**
   * The pieces `Split` hands to its callback from position `from` on, in order: the
   * bytes up to the next `delim`, then the pieces after it.  Empty pieces are
   * included.
   */
  function ChunksFrom(s: seq<byte>, from: nat, delim: byte): (r: seq<seq<byte>>)
    requires from <= |s|
    ensures |r| >= 1
    decreases |s| - from
  {
    var found := FirstOf(s, from, delim, delim);
    if found == |s| then [s[from..]] else [s[from..found]] + ChunksFrom(s, found + 1, delim)
  }

  /** The pieces of the whole of `s`. */
  function Chunks(s: seq<byte>, delim: byte): seq<seq<byte>>
  {
    ChunksFrom(s, 0, delim)
  }

  /** The pieces put back together with `delim` between them. */
  function Join(cs: seq<seq<byte>>, delim: byte): seq<byte>
    requires |cs| >= 1
  {
    if |cs| == 1 then cs[0] else cs[0] + [delim] + Join(cs[1..], delim)
  }

  /** How many times `x` occurs in `s`. */
  function Count(s: seq<byte>, x: byte): nat
  {
    if s == [] then 0 else (if s[0] == x then 1 else 0) + Count(s[1..], x)
  }

  /** No piece holds the delimiter. */
  ghost predicate Undelimited(cs: seq<seq<byte>>, delim: byte)
  {
    forall i, t :: 0 <= i < |cs| && 0 <= t < |cs[i]| ==> cs[i][t] != delim
  }

  /**
   * `Split`: find the next `delim` from `begin`, hand over the bytes before it,
   * stop when there is none, and go on after it otherwise.  The callback's calls
   * are recorded in `chunks`.
   */
  method Split(s: seq<byte>, delim: byte) returns (chunks: seq<seq<byte>>)
    ensures chunks == Chunks(s, delim)
  {
    var begin := 0;
    chunks := [];
    NoChange(Chunks(s, delim));
    while true
      invariant begin <= |s| && chunks + ChunksFrom(s, begin, delim) == Chunks(s, delim)
      decreases |s| - begin
    {
      var found := FirstOf(s, begin, delim, delim);
      var piece := s[begin..found];
      ChunksAt(s, begin, delim, found);
      if found == |s| {
        chunks := chunks + [piece];
        return;
      }
      Assoc(chunks, [piece], ChunksFrom(s, found + 1, delim));
      chunks := chunks + [piece];
      begin := found + 1;
    }
  }

  /** The bytes from `from` on, cut at a delimiter at `found`. */
  lemma CutAt(s: seq<byte>, from: nat, found: nat, delim: byte)
    requires from <= found < |s| && s[found] == delim
    ensures s[from..] == s[from..found] + ([delim] + s[found + 1..])
  {
  }

  /** Joining the pieces with the delimiter gives back the input. */
  lemma {:induction false} JoinFrom(s: seq<byte>, from: nat, delim: byte)
    requires from <= |s|
    ensures Join(ChunksFrom(s, from, delim), delim) == s[from..]
    decreases |s| - from
  {
    var found := FirstOf(s, from, delim, delim);
    if found < |s| {
      var cs := ChunksFrom(s, from, delim);
      JoinFrom(s, found + 1, delim);
      assert cs[1..] == ChunksFrom(s, found + 1, delim);
      CutAt(s, from, found, delim);
    }
  }

  lemma SplitJoin(s: seq<byte>, delim: byte)
    ensures |Chunks(s, delim)| >= 1 && Join(Chunks(s, delim), delim) == s
  {
    JoinFrom(s, 0, delim);
  }

  /** No piece holds the delimiter. */
  lemma {:induction false} SplitPieces(s: seq<byte>, from: nat, delim: byte)
    requires from <= |s|
    ensures Undelimited(ChunksFrom(s, from, delim), delim)
    decreases |s| - from
  {
    var found := FirstOf(s, from, delim, delim);
    if found < |s| {
      SplitPieces(s, found + 1, delim);
    }
  }

  lemma {:induction false} CountAppend(a: seq<byte>, b: seq<byte>, x: byte)
    ensures Count(a + b, x) == Count(a, x) + Count(b, x)
    decreases |a|
  {
    if a == [] {
      assert a + b == b;
    } else {
      CountAppend(a[1..], b, x);
      assert (a + b)[1..] == a[1..] + b;
    }
  }

  lemma {:induction false} CountNone(a: seq<byte>, x: byte)
    requires forall t :: 0 <= t < |a| ==> a[t] != x
    ensures Count(a, x) == 0
    decreases |a|
  {
    if a != [] {
      CountNone(a[1..], x);
    }
  }

  /** From `from` on, the callback is called once more than the delimiter occurs. */
  lemma {:induction false} CountFrom(s: seq<byte>, from: nat, delim: byte)
    requires from <= |s|
    ensures |ChunksFrom(s, from, delim)| == Count(s[from..], delim) + 1
    decreases |s| - from
  {
    var found := FirstOf(s, from, delim, delim);
    if found == |s| {
      CountNone(s[from..], delim);
    } else {
      CountFrom(s, found + 1, delim);
      CutAt(s, from, found, delim);
      CountAppend(s[from..found], [delim] + s[found + 1..], delim);
      CountAppend([delim], s[found + 1..], delim);
      CountNone(s[from..found], delim);
    }
  }

  /** The callback is called once more than the delimiter occurs. */
  lemma SplitCount(s: seq<byte>, delim: byte)
    ensures |Chunks(s, delim)| == Count(s, delim) + 1
  {
    CountFrom(s, 0, delim);
    assert s[0..] == s;
  }

  /**
   * The pieces are the only ones with those two properties: any pieces without the
   * delimiter that join back to the bytes from `from` on are `ChunksFrom(s, from, delim)`.
   */
  lemma {:induction false} UniqueFrom(s: seq<byte>, from: nat, delim: byte, cs: seq<seq<byte>>)
    requires from <= |s| && |cs| >= 1
    requires Join(cs, delim) == s[from..]
    requires Undelimited(cs, delim)
    ensures cs == ChunksFrom(s, from, delim)
    decreases |cs|
  {
    var found := from + |cs[0]|;
    FirstPiece(s, from, delim, cs, found);
    if |cs| > 1 {
      UniqueFrom(s, found + 1, delim, cs[1..]);
    }
    PiecesAt(s, from, delim, cs, found);
  }

  /** Pieces that start with the bytes up to the first delimiter and go on with the pieces after it are the pieces. */
  lemma PiecesAt(s: seq<byte>, from: nat, delim: byte, cs: seq<seq<byte>>, found: nat)
    requires from <= |s|
    requires found == FirstOf(s, from, delim, delim)
    requires |cs| >= 1
    requires cs[0] == s[from..found]
    requires |cs| == 1 <==> found == |s|
    requires |cs| > 1 ==> found < |s|
    requires |cs| > 1 ==> cs[1..] == ChunksFrom(s, found + 1, delim)
    ensures cs == ChunksFrom(s, from, delim)
  {
    ChunksAt(s, from, delim, found);
    Cons(cs);
  }

  /** `ChunksFrom` unfolded once, at the first delimiter `found`. */
  lemma ChunksAt(s: seq<byte>, from: nat, delim: byte, found: nat)
    requires from <= |s| && found == FirstOf(s, from, delim, delim)
    ensures found == |s| ==> ChunksFrom(s, from, delim) == [s[from..found]]
    ensures found < |s| ==> ChunksFrom(s, from, delim) == [s[from..found]] + ChunksFrom(s, found + 1, delim)
  {
    if found == |s| {
      assert s[from..found] == s[from..];
    }
  }

  /**
   * The first of some pieces without the delimiter that join back to the bytes from
   * `from` on ends at the first delimiter, and the others join back to what follows.
   */
  lemma FirstPiece(s: seq<byte>, from: nat, delim: byte, cs: seq<seq<byte>>, found: nat)
    requires from <= |s| && |cs| >= 1 && Join(cs, delim) == s[from..] && Undelimited(cs, delim)
    requires found == from + |cs[0]|
    ensures found <= |s| && FirstOf(s, from, delim, delim) == found
    ensures cs[0] == s[from..found]
    ensures |cs| == 1 <==> found == |s|
    ensures |cs| > 1 ==> found < |s| && Join(cs[1..], delim) == s[found + 1..] && Undelimited(cs[1..], delim)
  {
    var c := cs[0];
    assert forall t :: 0 <= t < |c| ==> c[t] != delim;
    if |cs| == 1 {
      assert forall t :: from <= t < |s| ==> s[t] == c[t - from];
      FirstOfAt(s, from, delim, delim, |s|);
    } else {
      var rest := Join(cs[1..], delim);
      assert s[from..] == c + [delim] + rest;
      assert forall t :: from <= t < found ==> s[t] == c[t - from];
      FirstOfAt(s, from, delim, delim, found);
      assert s[found + 1..] == rest;
      UndelimitedTail(cs, delim);
    }
  }

  lemma UndelimitedTail(cs: seq<seq<byte>>, delim: byte)
    requires |cs| >= 1 && Undelimited(cs, delim)
    ensures Undelimited(cs[1..], delim)
  {
    forall i, t | 0 <= i < |cs[1..]| && 0 <= t < |cs[1..][i]|
      ensures cs[1..][i][t] != delim
    {
      assert cs[1..][i] == cs[i + 1];
    }
  }

  /** Any pieces without the delimiter that join back to `s` are `Chunks(s, delim)`. */
  lemma SplitUnique(s: seq<byte>, delim: byte, cs: seq<seq<byte>>)
    requires |cs| >= 1 && Join(cs, delim) == s && Undelimited(cs, delim)
    ensures cs == Chunks(s, delim)
  {
    assert s[0..] == s;
    UniqueFrom(s, 0, delim, cs);
  }

  // ---------------------------------------------------------------------------
  // ParseCommands
  // ---------------------------------------------------------------------------

  /** `' '`, the separator of command words. */
  const SPACE: byte := 32

  /** The non-empty pieces, in order. */
  function NonEmpty(cs: seq<seq<byte>>): (r: seq<seq<byte>>)
    ensures |r| <= |cs|
  {
    if cs == [] then []
    else NonEmpty(cs[..|cs| - 1]) + (if cs[|cs| - 1] == [] then [] else [cs[|cs| - 1]])
  }

  /** The words of `data`: the non-empty space-separated pieces. */
  function Words(data: seq<byte>): seq<seq<byte>>
  {
    NonEmpty(Chunks(data, SPACE))
  }

  /**
   * `ParseCommands`: split on `' '`, keep the non-empty pieces, and return them
   * unless there are none.
   */
  method ParseCommands(data: seq<byte>) returns (r: Option<seq<seq<byte>>>)
    ensures r == if Words(data) == [] then None else Some(Words(data))
  {
    var chunks := Split(data, SPACE);
    var args: seq<seq<byte>> := [];
    for i := 0 to |chunks|
      invariant args == NonEmpty(chunks[..i])
    {
      assert chunks[..i + 1][..i] == chunks[..i];
      if |chunks[i]| > 0 {
        args := args + [chunks[i]];
      }
    }
    assert chunks[..|chunks|] == chunks;
    if |args| > 0 {
      return Some(args);
    }
    return None;
  }

  /** The pieces one after another. */
  function Concat(cs: seq<seq<byte>>): seq<byte>
  {
    if cs == [] then [] else Concat(cs[..|cs| - 1]) + cs[|cs| - 1]
  }

  /** `s` without its spaces. */
  function Unspaced(s: seq<byte>): seq<byte>
  {
    if s == [] then [] else (if s[0] == SPACE then [] else [s[0]]) + Unspaced(s[1..])
  }

  lemma ConcatOne(c: seq<byte>)
    ensures Concat([c]) == c
  {
    assert [c][..0] == [];
  }

  lemma NonEmptyOne(c: seq<byte>)
    ensures NonEmpty([c]) == if c == [] then [] else [c]
  {
    assert [c][..0] == [];
  }

  lemma {:induction false} ConcatAppend(a: seq<seq<byte>>, b: seq<seq<byte>>)
    ensures Concat(a + b) == Concat(a) + Concat(b)
    decreases |b|
  {
    if b == [] {
      assert a + b == a;
    } else {
      ConcatAppend(a, b[..|b| - 1]);
      assert (a + b)[..|a + b| - 1] == a + b[..|b| - 1];
    }
  }

  lemma {:induction false} NonEmptyAppend(a: seq<seq<byte>>, b: seq<seq<byte>>)
    ensures NonEmpty(a + b) == NonEmpty(a) + NonEmpty(b)
    decreases |b|
  {
    if b == [] {
      assert a + b == a;
    } else {
      NonEmptyAppend(a, b[..|b| - 1]);
      assert (a + b)[..|a + b| - 1] == a + b[..|b| - 1];
    }
  }

  lemma {:induction false} UnspacedAppend(a: seq<byte>, b: seq<byte>)
    ensures Unspaced(a + b) == Unspaced(a) + Unspaced(b)
    decreases |a|
  {
    if a == [] {
      assert a + b == b;
    } else {
      UnspacedAppend(a[1..], b);
      assert (a + b)[1..] == a[1..] + b;
    }
  }

  lemma {:induction false} UnspacedNone(a: seq<byte>)
    requires forall t :: 0 <= t < |a| ==> a[t] != SPACE
    ensures Unspaced(a) == a
    decreases |a|
  {
    if a != [] {
      UnspacedNone(a[1..]);
      assert a == [a[0]] + a[1..];
    }
  }

  /** From `from` on, the words one after another are the data with its spaces taken out. */
  lemma {:induction false} WordsFrom(data: seq<byte>, from: nat)
    requires from <= |data|
    ensures Concat(NonEmpty(ChunksFrom(data, from, SPACE))) == Unspaced(data[from..])
    decreases |data| - from
  {
    var found := FirstOf(data, from, SPACE, SPACE);
    if found == |data| {
      LastWords(data, from, found);
    } else {
      WordsFrom(data, found + 1);
      NextWords(data, from, found);
    }
  }

  /** `WordsFrom` when no space follows `from`. */
  lemma LastWords(data: seq<byte>, from: nat, found: nat)
    requires from <= |data| && found == FirstOf(data, from, SPACE, SPACE) == |data|
    ensures Concat(NonEmpty(ChunksFrom(data, from, SPACE))) == Unspaced(data[from..])
  {
    var head := data[from..found];
    UnspacedNone(head);
    FirstWord(head);
    assert head == data[from..];
  }

  /** `WordsFrom` at `from` from `WordsFrom` after the space at `found`. */
  lemma NextWords(data: seq<byte>, from: nat, found: nat)
    requires from <= |data| && found == FirstOf(data, from, SPACE, SPACE) < |data|
    requires Concat(NonEmpty(ChunksFrom(data, found + 1, SPACE))) == Unspaced(data[found + 1..])
    ensures Concat(NonEmpty(ChunksFrom(data, from, SPACE))) == Unspaced(data[from..])
  {
    var head := data[from..found];
    var tail := ChunksFrom(data, found + 1, SPACE);
    ChunksAt(data, from, SPACE, found);
    NonEmptyAppend([head], tail);
    ConcatAppend(NonEmpty([head]), NonEmpty(tail));
    FirstWord(head);
    UnspacedNone(head);
    UnspacedCut(data, from, found);
    calc {
      Concat(NonEmpty(ChunksFrom(data, from, SPACE)));
      Concat(NonEmpty([head] + tail));
      Concat(NonEmpty([head]) + NonEmpty(tail));
      Concat(NonEmpty([head])) + Concat(NonEmpty(tail));
      Unspaced(head) + Unspaced(data[found + 1..]);
      Unspaced(data[from..]);
    }
  }

  /** The words of a piece without spaces, put together, are the piece. */
  lemma FirstWord(head: seq<byte>)
    ensures Concat(NonEmpty([head])) == head
  {
    NonEmptyOne(head);
    if head != [] {
      ConcatOne(head);
    }
  }

  /** Taking the spaces out of the bytes from `from` on, around a space at `found`. */
  lemma UnspacedCut(data: seq<byte>, from: nat, found: nat)
    requires from <= found < |data| && data[found] == SPACE
    ensures Unspaced(data[from..]) == Unspaced(data[from..found]) + Unspaced(data[found + 1..])
  {
    CutAt(data, from, found, SPACE);
    UnspacedAppend(data[from..found], [SPACE] + data[found + 1..]);
    UnspacedAppend([SPACE], data[found + 1..]);
    assert Unspaced([SPACE]) == [];
  }

  /** The words one after another are the data with its spaces taken out. */
  lemma WordsConcat(data: seq<byte>)
    ensures Concat(Words(data)) == Unspaced(data)
  {
    WordsFrom(data, 0);
    assert data[0..] == data;
  }

  /** Every word is non-empty and holds no space. */
  lemma WordsShape(data: seq<byte>)
    ensures forall i :: 0 <= i < |Words(data)| ==> Words(data)[i] != []
    ensures Undelimited(Words(data), SPACE)
  {
    SplitPieces(data, 0, SPACE);
    NonEmptyShape(Chunks(data, SPACE));
  }

  lemma {:induction false} NonEmptyShape(cs: seq<seq<byte>>)
    requires Undelimited(cs, SPACE)
    ensures forall i :: 0 <= i < |NonEmpty(cs)| ==> NonEmpty(cs)[i] != []
    ensures Undelimited(NonEmpty(cs), SPACE)
    decreases |cs|
  {
    if cs != [] {
      var init := cs[..|cs| - 1];
      assert Undelimited(init, SPACE) by {
        forall i, t | 0 <= i < |init| && 0 <= t < |init[i]|
          ensures init[i][t] != SPACE
        {
          assert init[i] == cs[i];
        }
      }
      NonEmptyShape(init);
    }
  }

  /** `ParseCommands` returns nothing exactly when the data is all spaces. */
  lemma NoWords(data: seq<byte>)
    ensures Words(data) == [] <==> forall t :: 0 <= t < |data| ==> data[t] == SPACE
  {
    WordsConcat(data);
    WordsShape(data);
    if Words(data) != [] {
      var w := Words(data);
      ConcatAppend(w[..|w| - 1], [w[|w| - 1]]);
      assert w[..|w| - 1] + [w[|w| - 1]] == w;
      ConcatOne(w[|w| - 1]);
      UnspacedSpaces(data);
    } else {
      UnspacedSpaces(data);
    }
  }

  /** `Unspaced(s)` is empty exactly when every byte is a space. */
  lemma {:induction false} UnspacedSpaces(s: seq<byte>)
    ensures Unspaced(s) == [] <==> forall t :: 0 <= t < |s| ==> s[t] == SPACE
    decreases |s|
  {
    if s != [] {
      UnspacedSpaces(s[1..]);
      if s[0] == SPACE {
        assert forall t :: 1 <= t < |s| ==> s[t] == s[1..][t - 1];
      }
    }
  }

  // ---------------------------------------------------------------------------
  // ExecuteCommand
  // ---------------------------------------------------------------------------

  /** The callbacks the table points to; what they do is not part of this model. */
  datatype Callback = CmdPwmOn | CmdPwmOff | CmdSetFreq | CmdSetDutyCycles | CmdStatus

  /** `CommandHandler`: a name, its callback, and the fewest and most arguments it takes. */
  datatype CommandEntry = CommandEntry(name: seq<byte>, callback: Callback, minArgs: nat, maxArgs: nat)

  /** `kCommandHandlers`: the supported commands and how many arguments each takes. */
  const COMMANDS: seq<CommandEntry> := [
    CommandEntry([79, 78], CmdPwmOn, 0, 0),  // "ON"
    CommandEntry([79, 70, 70], CmdPwmOff, 0, 0),  // "OFF"
    CommandEntry([83, 69, 84, 95, 70, 82, 69, 81], CmdSetFreq, 1, 1),  // "SET_FREQ"
    CommandEntry([83, 69, 84, 95, 68, 85, 84, 89, 95, 67, 89, 67, 76, 69, 83], CmdSetDutyCycles, 1, 312),  // "SET_DUTY_CYCLES"
    CommandEntry([83, 84, 65, 84, 85, 83], CmdStatus, 0, 0)  // "STATUS"
  ]

  /** `kUnknownCommand`, "UNKNOWN_COMMAND", the error code for a word naming no command. */
  const UNKNOWN_COMMAND: seq<byte> := [85, 78, 75, 78, 79, 87, 78, 95, 67, 79, 77, 77, 65, 78, 68]

  /** `kInvalidArgument`, "INVALID_ARGUMENT", the error code for a wrong number of arguments. */
  const INVALID_ARGUMENT: seq<byte> := [73, 78, 86, 65, 76, 73, 68, 95, 65, 82, 71, 85, 77, 69, 78, 84]

  /**
   * What `ExecuteCommand` leaves in `ret`: an error code it wrote itself, or
   * whatever the callback writes when called with the words.
   */
  datatype Execution = Reply(ret: seq<byte>) | Dispatch(callback: Callback, args: seq<seq<byte>>)

  /** `std::find_if` over the table from entry `i`: the first entry called `name`. */
  function Lookup(table: seq<CommandEntry>, name: seq<byte>, i: nat): (r: Option<nat>)
    requires i <= |table|
    ensures r.Some? ==> i <= r.value < |table| && table[r.value].name == name
    ensures r.Some? ==> forall k :: i <= k < r.value ==> table[k].name != name
    ensures r.None? <==> forall k :: i <= k < |table| ==> table[k].name != name
    decreases |table| - i
  {
    if i == |table| then None
    else if table[i].name == name then Some(i)
    else Lookup(table, name, i + 1)
  }

  /** No two commands share a name, so at most one entry matches a word. */
  lemma NamesDistinct()
    ensures forall k, l :: 0 <= k < l < |COMMANDS| ==> COMMANDS[k].name != COMMANDS[l].name
  {
    forall k, l | 0 <= k < l < |COMMANDS|
      ensures COMMANDS[k].name != COMMANDS[l].name
    {
      assert |COMMANDS[k].name| != |COMMANDS[l].name|;
    }
  }

  /**
   * `ExecuteCommand`: no words, or a first word naming no command, gives
   * `UNKNOWN_COMMAND`; a number of further words outside the command's bounds gives
   * `INVALID_ARGUMENT`; otherwise the command's callback gets all the words.
   */
  function ExecuteCommand(args: seq<seq<byte>>): (r: Execution)
    ensures args == [] ==> r == Reply(UNKNOWN_COMMAND)
    ensures args != [] && (forall k :: 0 <= k < |COMMANDS| ==> COMMANDS[k].name != args[0]) ==> r == Reply(UNKNOWN_COMMAND)
    ensures forall k :: 0 <= k < |COMMANDS| && args != [] && COMMANDS[k].name == args[0] ==>
      r == if COMMANDS[k].minArgs <= |args| - 1 <= COMMANDS[k].maxArgs
           then Dispatch(COMMANDS[k].callback, args)
           else Reply(INVALID_ARGUMENT)
  {
    NamesDistinct();
    if args == [] then Reply(UNKNOWN_COMMAND)
    else
      match Lookup(COMMANDS, args[0], 0)
      case None => Reply(UNKNOWN_COMMAND)
      case Some(k) =>
        var entry := COMMANDS[k];
        if entry.minArgs <= |args| - 1 && entry.maxArgs >= |args| - 1 then Dispatch(entry.callback, args)
        else Reply(INVALID_ARGUMENT)
  }
}
