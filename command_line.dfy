/** parseCommandLine: the token loop over argv that fills in the globals.
    The declarative meaning of a parse is `Parsed`; the class `Program`
    holds the globals and its method runs the loop as the source does. */
module CommandLine {
  import opened AxiRegState

  /** The two tokens that select an output format. */
  predicate IsFlag(t: string) {
    t == "-dec" || t == "-hex"
  }

  /** The bit a token ORs into the output mode: OM_DEC for "-dec",
      OM_HEX for "-hex", nothing for a positional. */
  function TokenBit(t: string): (b: bv32)
    ensures b != OM_NONE <==> IsFlag(t)
    ensures b == OM_DEC <==> t == "-dec"
    ensures b == OM_HEX <==> t == "-hex"
    ensures b == OM_NONE || b == OM_DEC || b == OM_HEX
  {
    if t == "-dec" then OM_DEC else if t == "-hex" then OM_HEX else OM_NONE
  }

  /** The argv arrays the loop is defined on: some entry from index 1 on is
      null. C guarantees only argv[argc] == NULL with argc >= 0, so this
      excludes argc == 0, where the loop's first read of argv[1] already
      lies past the terminating null. */
  predicate NullTerminated(argv: seq<Option<string>>) {
    exists k :: 1 <= k < |argv| && argv[k].None?
  }

  /** The index of the first null entry at or after `i`. */
  function FirstNullFrom(argv: seq<Option<string>>, i: nat): (k: nat)
    requires exists j :: i <= j < |argv| && argv[j].None?
    ensures i <= k < |argv| && argv[k].None?
    ensures forall j :: i <= j < k ==> argv[j].Some?
    decreases |argv| - i
  {
    if argv[i].None? then i else FirstNullFrom(argv, i + 1)
  }

  /** The tokens the loop consumes: argv[1], argv[2], ... up to the first null. */
  function Tokens(argv: seq<Option<string>>): (ts: seq<string>)
    requires NullTerminated(argv)
    ensures 1 + |ts| < |argv| && argv[1 + |ts|].None?
    ensures forall j :: 0 <= j < |ts| ==> argv[j + 1] == Some(ts[j])
  {
    var k := FirstNullFrom(argv, 1);
    seq(k - 1, j requires 0 <= j < k - 1 => argv[j + 1].value)
  }

  /** Entries after the first null do not move it. */
  lemma {:induction false} FirstNullIgnoresRest(argv: seq<Option<string>>, rest: seq<Option<string>>, i: nat)
    requires exists j :: i <= j < |argv| && argv[j].None?
    ensures exists j :: i <= j < |argv + rest| && (argv + rest)[j].None?
    ensures FirstNullFrom(argv + rest, i) == FirstNullFrom(argv, i)
    decreases |argv| - i
  {
    var k := FirstNullFrom(argv, i);
    assert (argv + rest)[k].None?;
    if argv[i].Some? {
      FirstNullIgnoresRest(argv, rest, i + 1);
    }
  }

  /** Parsing stops at the first null entry: whatever follows it is never read. */
  lemma TokensIgnoreRest(argv: seq<Option<string>>, rest: seq<Option<string>>)
    requires NullTerminated(argv)
    ensures NullTerminated(argv + rest) && Tokens(argv + rest) == Tokens(argv)
  {
    FirstNullIgnoresRest(argv, rest, 1);
  }

  /** The positional arguments among the tokens, in order. */
  function Positionals(ts: seq<string>): (ps: seq<string>)
    ensures |ps| <= |ts|
    ensures forall i :: 0 <= i < |ps| ==> !IsFlag(ps[i])
  {
    if ts == [] then []
    else
      var last := ts[|ts| - 1];
      Positionals(ts[..|ts| - 1]) + (if IsFlag(last) then [] else [last])
  }

  /** The output-mode bits OR-ed together over all the tokens. */
  function FlagBits(ts: seq<string>): (m: bv32)
    ensures m <= OM_BOTH
  {
    if ts == [] then OM_NONE
    else FlagBits(ts[..|ts| - 1]) | TokenBit(ts[|ts| - 1])
  }

  /** How many flag tokens there are among the tokens. */
  function FlagCount(ts: seq<string>): nat {
    if ts == [] then 0
    else FlagCount(ts[..|ts| - 1]) + (if IsFlag(ts[|ts| - 1]) then 1 else 0)
  }

  /** The globals after parsing the tokens `ts` from the globals `g`:
      the flags seen are OR-ed into the mode, the first positional is the
      address, the last of the later positionals (cut to 32 bits) is the
      data, and two or more positionals make it a write. */
  function Parsed(g: Globals, ts: seq<string>, parseNum: string -> U64): Globals {
    var ps := Positionals(ts);
    Globals(
      g.outputMode | FlagBits(ts),
      if |ps| == 0 then g.address else parseNum(ps[0]),
      if |ps| < 2 then g.data else Truncate32(parseNum(ps[|ps| - 1])),
      g.isAxiWrite || |ps| >= 2)
  }

  /** Appending one token adds it to the positionals exactly when it is no flag. */
  lemma PositionalsAppend(ts: seq<string>, t: string)
    ensures Positionals(ts + [t]) == Positionals(ts) + (if IsFlag(t) then [] else [t])
  {
    assert (ts + [t])[..|ts|] == ts;
  }

  /** Appending one token ORs in its bit. */
  lemma FlagBitsAppend(ts: seq<string>, t: string)
    ensures FlagBits(ts + [t]) == FlagBits(ts) | TokenBit(t)
  {
    assert (ts + [t])[..|ts|] == ts;
  }

  lemma {:induction false} PositionalsConcat(a: seq<string>, b: seq<string>)
    ensures Positionals(a + b) == Positionals(a) + Positionals(b)
    decreases |b|
  {
    if b == [] {
      assert a + b == a;
    } else {
      var init, last := b[..|b| - 1], b[|b| - 1];
      assert b == init + [last];
      assert a + b == (a + init) + [last];
      PositionalsConcat(a, init);
      PositionalsAppend(a + init, last);
      PositionalsAppend(init, last);
    }
  }

  lemma {:induction false} FlagBitsConcat(a: seq<string>, b: seq<string>)
    ensures FlagBits(a + b) == FlagBits(a) | FlagBits(b)
    decreases |b|
  {
    if b == [] {
      assert a + b == a;
    } else {
      var init, last := b[..|b| - 1], b[|b| - 1];
      assert b == init + [last];
      assert a + b == (a + init) + [last];
      FlagBitsConcat(a, init);
      FlagBitsAppend(a + init, last);
      FlagBitsAppend(init, last);
    }
  }

  /** The DEC bit is set exactly when "-dec" appeared, the HEX bit exactly when "-hex" did. */
  lemma {:induction false} FlagBitsSeen(ts: seq<string>)
    ensures FlagBits(ts) & OM_DEC != 0 <==> "-dec" in ts
    ensures FlagBits(ts) & OM_HEX != 0 <==> "-hex" in ts
    decreases |ts|
  {
    if ts != [] {
      var init, last := ts[..|ts| - 1], ts[|ts| - 1];
      assert ts == init + [last];
      FlagBitsSeen(init);
      FlagBitsAppend(init, last);
    }
  }

  /** No non-flag token is dropped from the positionals. */
  lemma {:induction false} NonFlagsArePositional(ts: seq<string>, t: string)
    requires t in ts && !IsFlag(t)
    ensures t in Positionals(ts)
    decreases |ts|
  {
    var init, last := ts[..|ts| - 1], ts[|ts| - 1];
    assert ts == init + [last];
    PositionalsAppend(init, last);
    if last != t {
      NonFlagsArePositional(init, t);
    }
  }

  /** Tokens that are all flags contribute no positional. */
  lemma {:induction false} OnlyFlagsNoPositionals(ts: seq<string>)
    requires forall t :: t in ts ==> IsFlag(t)
    ensures Positionals(ts) == []
    decreases |ts|
  {
    if ts != [] {
      var init, last := ts[..|ts| - 1], ts[|ts| - 1];
      assert ts == init + [last];
      assert last in ts;
      assert forall t :: t in init ==> t in ts;
      OnlyFlagsNoPositionals(init);
      PositionalsAppend(init, last);
    }
  }

  /** Every token is either a flag or a positional, never both. */
  lemma {:induction false} FlagsAreNotPositional(ts: seq<string>)
    ensures |Positionals(ts)| + FlagCount(ts) == |ts|
    decreases |ts|
  {
    if ts != [] {
      FlagsAreNotPositional(ts[..|ts| - 1]);
    }
  }

  /** A flag token at the end ORs its bit into the mode and changes nothing else. */
  lemma FlagStep(g: Globals, ts: seq<string>, f: string, parseNum: string -> U64)
    requires IsFlag(f)
    ensures var h := Parsed(g, ts, parseNum);
      Parsed(g, ts + [f], parseNum) == h.(outputMode := h.outputMode | TokenBit(f))
  {
    PositionalsAppend(ts, f);
    FlagBitsAppend(ts, f);
  }

  /** A positional token at the end sets the address when it is the first
      positional, and otherwise sets the data (cut to 32 bits) and marks a write. */
  lemma PositionalStep(g: Globals, ts: seq<string>, p: string, parseNum: string -> U64)
    requires !IsFlag(p)
    ensures var h := Parsed(g, ts, parseNum);
      Parsed(g, ts + [p], parseNum) ==
        if |Positionals(ts)| == 0 then h.(address := parseNum(p))
        else h.(data := Truncate32(parseNum(p)), isAxiWrite := true)
  {
    PositionalsAppend(ts, p);
    FlagBitsAppend(ts, p);
  }

  /** Starting from the program's initial globals, the mode is one of the four OM_ values. */
  lemma ModeInRange(ts: seq<string>, parseNum: string -> U64)
    ensures Parsed(Initial, ts, parseNum).outputMode in {OM_NONE, OM_DEC, OM_HEX, OM_BOTH}
  {
  }

  /** The mode depends only on which flags appeared, not on how often or in which order. */
  lemma ModeDependsOnlyOnFlagsSeen(g: Globals, ts: seq<string>, us: seq<string>, parseNum: string -> U64)
    requires "-dec" in ts <==> "-dec" in us
    requires "-hex" in ts <==> "-hex" in us
    ensures Parsed(g, ts, parseNum).outputMode == Parsed(g, us, parseNum).outputMode
  {
    FlagBitsSeen(ts);
    FlagBitsSeen(us);
  }

  /** A flag placed anywhere among the tokens changes nothing but the mode. */
  lemma FlagAnywhere(g: Globals, a: seq<string>, f: string, b: seq<string>, parseNum: string -> U64)
    requires IsFlag(f)
    ensures var h := Parsed(g, a + b, parseNum);
      Parsed(g, a + [f] + b, parseNum) == h.(outputMode := h.outputMode | TokenBit(f))
  {
    PositionalsConcat(a + [f], b);
    PositionalsAppend(a, f);
    PositionalsConcat(a, b);
    FlagBitsConcat(a + [f], b);
    FlagBitsAppend(a, f);
    FlagBitsConcat(a, b);
  }

  /** Repeating a flag that is already present changes nothing at all. */
  lemma RepeatedFlagIsIdempotent(g: Globals, a: seq<string>, f: string, b: seq<string>, parseNum: string -> U64)
    requires IsFlag(f) && f in a + b
    ensures Parsed(g, a + [f] + b, parseNum) == Parsed(g, a + b, parseNum)
  {
    FlagAnywhere(g, a, f, b, parseNum);
    FlagBitsSeen(a + b);
  }

  /** Once a positional has been seen, no later tokens change the address. */
  lemma {:induction false} AddressFixedByFirstPositional(g: Globals, a: seq<string>, b: seq<string>, parseNum: string -> U64)
    requires |Positionals(a)| >= 1
    ensures Parsed(g, a + b, parseNum).address == Parsed(g, a, parseNum).address
  {
    PositionalsConcat(a, b);
  }

  /** The data is the last positional after the first one: a positional
      that follows the address and is followed only by flags wins, cut to 32 bits. */
  lemma {:induction false} LastPositionalWins(g: Globals, a: seq<string>, p: string, b: seq<string>, parseNum: string -> U64)
    requires |Positionals(a)| >= 1 && !IsFlag(p)
    requires forall t :: t in b ==> IsFlag(t)
    ensures Parsed(g, a + [p] + b, parseNum).data == Truncate32(parseNum(p))
    ensures Parsed(g, a + [p] + b, parseNum).isAxiWrite
  {
    PositionalsConcat(a + [p], b);
    PositionalsAppend(a, p);
    OnlyFlagsNoPositionals(b);
  }

  /** From the initial globals, a write is chosen exactly when two or
      more positionals were given, and the usage path exactly when none
      was given or the first one parses to the UNSET sentinel. */
  lemma WriteAndUsageConditions(ts: seq<string>, parseNum: string -> U64)
    ensures var ps := Positionals(ts); var g := Parsed(Initial, ts, parseNum);
      && (g.isAxiWrite <==> |ps| >= 2)
      && (g.address == UNSET <==> |ps| == 0 || parseNum(ps[0]) == UNSET)
      && (!g.isAxiWrite ==> g.data == 0)
  {
  }

  /** The translation unit's globals, updated in place by parseCommandLine. */
  class Program {
    var outputMode: bv32
    var address: U64
    var data: U32
    var isAxiWrite: bool

    /** The globals as the program is loaded. */
    constructor ()
      ensures State() == Initial
    {
      outputMode, address, data, isAxiWrite := OM_NONE, UNSET, 0, false;
    }

    function State(): Globals
      reads this
    {
      Globals(outputMode, address, data, isAxiWrite)
    }

    /** Walks argv from index 1 to the first null entry. Returns true when
        the address is still UNSET afterwards, where the source shows the
        usage text and exits. */
    method ParseCommandLine(argv: seq<Option<string>>, parseNum: string -> U64) returns (usage: bool)
      requires NullTerminated(argv)
      modifies this
      ensures State() == Parsed(old(State()), Tokens(argv), parseNum)
      ensures usage <==> address == UNSET
    {
      ghost var ts := Tokens(argv);
      ghost var seen: seq<string> := [];
      var i, index := 1, 0;
      while true
        invariant 1 <= i <= |ts| + 1 && seen == ts[..i - 1]
        invariant index == |Positionals(seen)|
        invariant State() == Parsed(old(State()), seen, parseNum)
        decreases |ts| + 1 - i
      {
        // Fetch the next token; a null entry ends the loop
        var token := argv[i];
        i := i + 1;
        if token.None? {
          assert seen == ts;
          break;
        }
        assert ts[..i - 1] == seen + [token.value];
        PositionalsAppend(seen, token.value);

        // "-dec" and "-hex" OR their bit into the mode and are not counted
        var bit := TokenBit(token.value);
        if bit != OM_NONE {
          outputMode := outputMode | bit;
          FlagStep(old(State()), seen, token.value, parseNum);
          seen := seen + [token.value];
          continue;
        }

        // Store this parameter into either the address or the data
        PositionalStep(old(State()), seen, token.value, parseNum);
        index := index + 1;
        if index == 1 {
          address := parseNum(token.value);
        } else {
          data := Truncate32(parseNum(token.value));
          isAxiWrite := true;
        }
        seen := seen + [token.value];
      }
      usage := address == UNSET;
    }
  }
}
