/** What users may type for a register (breakpoint_register.cpp), beside the names that are
    printed. */
module BreakpointNames {
  import opened Words
  import opened WordSets
  import opened Text
  import opened Breakpoints
  import opened BreakpointRoundTrip

  /** The names of a register. */
  predicate Names(key: string, nr: nat) {
    || ((key == "SP" || key == "sp") && nr == 6)
    || ((key == "PC" || key == "pc") && nr == 7)
    || (nr < 8 && (key == ['R', Digit(nr)] || key == ['r', Digit(nr)]))
    || (100 <= nr < 104 && (key == "MMR" + [Digit(nr - 100)] || key == "mmr" + [Digit(nr - 100)]))
    || ((key == "PSW" || key == "psw") && nr == 200)
  }

  lemma NameIsKey(key: string, nr: nat, values: set<Word>)
    requires Names(key, nr)
    ensures RegisterFor(key, values) == Found(Register(nr, values)) && MemoryFor(key, values) == NotMine
    ensures forall v :: InstructionFor(key, v) == NotMine
    ensures IsToken(key, '=') && LeafChars(key)
  {
    if 100 <= nr < 104 {
      assert key[3] == Digit(nr - 100) && (key[..3] == "MMR" || key[..3] == "mmr");
    }
  }

  /** A text that is one leaf. */
  lemma LoneLeaf(token: string, bp: Breakpoint)
    requires LeafToken(token) && ParseLeaf(token) == Leaves([bp])
    ensures Parse(token) == Parsed(bp)
  {
    hide ParseLeaf, LeafToken, Join;
    LoneToken(token);
    ParseTokens([token]);
    LeafWeight(token);
    assert [token][0] == token && token != "and" && token != "or" by {
      LeafWords(token);
    }
    assert [] + [bp] == [bp];
  }

  lemma LeafWords(token: string)
    requires LeafToken(token)
    ensures token != "and" && token != "or"
  {
  }

  lemma LoneToken(token: string)
    requires LeafToken(token)
    ensures AreTokens([token], ' ') && Spaced([token]) == token
  {
    assert IsToken(token, ' ');
    JoinOne(token);
  }

  /** Every name of a register is understood, and printed back by the one name it has there. */
  lemma TypedRegister(key: string, nr: nat, values: set<Word>)
    requires Names(key, nr) && values != {}
    ensures Parse(EmitValues(key, Sorted(values))) == Parsed(Register(nr, values))
    ensures exists printed :: Names(printed, nr) && Emit(Register(nr, values)) == EmitValues(printed, Sorted(values))
  {
    hide Sorted, EmitValues, RegisterFor, MemoryFor, InstructionFor, ParseRegister, ParseMemory, ParseInstruction;
    NameIsKey(key, nr, values);
    KeyAndValues(key, values);
    LoneLeaf(EmitValues(key, Sorted(values)), Register(nr, values));
    assert Names(Name(nr), nr);
  }
}
