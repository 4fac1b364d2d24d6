// What the address translation finds, in terms of the ranges of functions and of the
// places of variables alone.
module TranslationFields {
  import opened Words
  import opened SymbolTables
  import opened ShadowStack
  import opened AddressTranslation
  import opened ScanFields

  // The instruction is between these two, where the code is loaded.
  predicate Between(low: u64, high: u64, textBase: u64, pc: u64) {
    (low + textBase) % 0x1_0000_0000_0000_0000 <= pc < (high + textBase) % 0x1_0000_0000_0000_0000
  }

  predicate UnitHas(c: CuView, textBase: u64, pc: u64) { Between(c.lowPc, c.highPc, textBase, pc) }

  predicate FunctionHas(s: Static, textBase: u64, pc: u64) {
    s.isSubprog && Between(s.lowPc, s.highPc, textBase, pc)
  }

  // The variable has the address: a local or a parameter counted from the base pointer, any
  // other from the data segment.
  predicate VariableHas(env: Env, ebp: u64, s: Static, a: u64) {
    && !s.isSubprog && s.v.typ in env.types
    && Within((s.v.location + if s.v.isLocal || s.v.isParam then ebp else env.dataBase) % 0x1_0000_0000_0000_0000,
              env.types[s.v.typ].size, a)
  }

  ghost predicate IsFirstUnit(cus: Table<CuView>, textBase: u64, pc: u64, i: int) {
    && 0 <= i < |cus| && UnitHas(cus[i].rec, textBase, pc)
    && forall k :: 0 <= k < i ==> !UnitHas(cus[k].rec, textBase, pc)
  }

  lemma FirstUnit(cus: Table<CuView>, textBase: u64, pc: u64)
    ensures var c := First(cus, UnitHasPc(textBase, pc));
            if c.None? then forall e <- cus :: !UnitHas(e.rec, textBase, pc)
            else exists i :: IsFirstUnit(cus, textBase, pc, i) && c == Some(cus[i])
  {
    FirstMeaning(cus, UnitHasPc(textBase, pc));
    assert forall c :: UnitHasPc(textBase, pc)(c) <==> UnitHas(c, textBase, pc);
    var c := First(cus, UnitHasPc(textBase, pc));
    hide UnitHasPc, UnitHas, First;
    if c.Some? {
      var i :| 0 <= i < |cus| && c == Some(cus[i]) && UnitHasPc(textBase, pc)(cus[i].rec) &&
               forall k :: 0 <= k < i ==> !UnitHasPc(textBase, pc)(cus[k].rec);
      assert IsFirstUnit(cus, textBase, pc, i);
    }
  }

  // The function of an instruction is the first subprogram, in the order of the names, with
  // the instruction, in the first unit with it; there is none if no unit has it, or if no
  // subprogram of that unit has.
  lemma FunctionExactly(cus: Table<CuView>, textBase: u64, pc: u64)
    ensures var f := FunctionAt(cus, textBase, pc);
            if forall c <- cus :: !UnitHas(c.rec, textBase, pc) then f == None
            else
              exists i :: IsFirstUnit(cus, textBase, pc, i) && IsFirstFunction(cus[i].rec.vars, textBase, pc, f)
  {
    hide UnitHasPc, HasPc, UnitHas, FunctionHas, First, IsFirstFunction;
    FirstUnit(cus, textBase, pc);
    var c := First(cus, UnitHasPc(textBase, pc));
    if c.Some? {
      var i :| IsFirstUnit(cus, textBase, pc, i) && c == Some(cus[i]);
      FirstFunction(cus[i].rec.vars, textBase, pc);
      assert cus[i] in cus;
    }
  }

  ghost predicate IsFirstFunction(t: Table<Static>, textBase: u64, pc: u64, f: Option<Entry<Static>>) {
    if forall e <- t :: !FunctionHas(e.rec, textBase, pc) then f == None
    else
      exists j :: && 0 <= j < |t| && f == Some(t[j]) && FunctionHas(t[j].rec, textBase, pc)
                  && forall k :: 0 <= k < j ==> !FunctionHas(t[k].rec, textBase, pc)
  }

  lemma FirstFunction(t: Table<Static>, textBase: u64, pc: u64)
    ensures IsFirstFunction(t, textBase, pc, First(t, HasPc(textBase, pc)))
  {
    FirstMeaning(t, HasPc(textBase, pc));
    assert forall s :: HasPc(textBase, pc)(s) <==> FunctionHas(s, textBase, pc);
  }

  ghost predicate NoneHas(env: Env, ebp: u64, t: Table<Static>, a: u64) {
    forall e <- t :: !VariableHas(env, ebp, e.rec, a)
  }

  ghost predicate IsFirstVariable(env: Env, ebp: u64, t: Table<Static>, a: u64, v: Option<Entry<Static>>) {
    if NoneHas(env, ebp, t, a) then v == None
    else
      exists j :: && 0 <= j < |t| && v == Some(t[j]) && VariableHas(env, ebp, t[j].rec, a)
                  && forall k :: 0 <= k < j ==> !VariableHas(env, ebp, t[k].rec, a)
  }

  lemma FirstVariable(env: Env, ebp: u64, t: Table<Static>, a: u64)
    ensures IsFirstVariable(env, ebp, t, a, First(t, IsVariableAt(env, ebp, a)))
  {
    hide Wrap;
    FirstMeaning(t, IsVariableAt(env, ebp, a));
    forall s ensures IsVariableAt(env, ebp, a)(s) <==> VariableHas(env, ebp, s, a) {
      if s.v.typ in env.types {
        Where(env, ebp, s.v, env.types[s.v.typ], a);
      }
    }
  }

  ghost predicate SomeLocal(env: Env, ebp: u64, f: Option<Entry<Static>>, a: u64) {
    f.Some? && !NoneHas(env, ebp, LocalsOf(f.value.rec), a)
  }

  // The variable at an address is, for an instruction of a function with a variable there,
  // the first such, and otherwise the first global there, of the first unit that has one;
  // there is none exactly when there is neither.
  lemma VariableExactly(env: Env, textBase: u64, ebp: u64, cus: Table<CuView>, pc: u64, a: u64)
    ensures var f := FunctionAt(cus, textBase, pc); var v := VariableAt(env, textBase, ebp, cus, pc, a);
            if SomeLocal(env, ebp, f, a) then IsFirstVariable(env, ebp, LocalsOf(f.value.rec), a, v)
            else IsFirstGlobal(env, ebp, cus, a, v)
  {
    hide FunctionAt, VariableHas, IsVariableAt;
    var f := FunctionAt(cus, textBase, pc);
    if f.Some? {
      FirstVariable(env, ebp, LocalsOf(f.value.rec), a);
    }
    FirstGlobal(env, ebp, cus, a);
  }

  ghost predicate IsFirstGlobal(env: Env, ebp: u64, cus: Table<CuView>, a: u64, v: Option<Entry<Static>>) {
    if forall k :: 0 <= k < |cus| ==> NoneHas(env, ebp, cus[k].rec.vars, a) then v == None
    else
      exists i :: && 0 <= i < |cus| && v.Some? && IsFirstVariable(env, ebp, cus[i].rec.vars, a, v)
                  && forall k :: 0 <= k < i ==> NoneHas(env, ebp, cus[k].rec.vars, a)
  }

  lemma {:induction false} FirstGlobal(env: Env, ebp: u64, cus: Table<CuView>, a: u64)
    ensures IsFirstGlobal(env, ebp, cus, a, GlobalAt(env, ebp, cus, a))
  {
    hide VariableHas, IsVariableAt, First, IsFirstGlobal, NoneHas, IsFirstVariable;
    if cus == [] {
      NoGlobal(env, ebp, cus, a);
    } else {
      FirstVariable(env, ebp, cus[0].rec.vars, a);
      Hits(env, ebp, cus[0].rec.vars, a, First(cus[0].rec.vars, IsVariableAt(env, ebp, a)));
      FirstGlobal(env, ebp, cus[1..], a);
      var v := GlobalAt(env, ebp, cus, a);
      if First(cus[0].rec.vars, IsVariableAt(env, ebp, a)).Some? {
        HeadGlobal(env, ebp, cus, a, v);
      } else {
        TailGlobal(env, ebp, cus, a, v);
      }
    }
  }

  lemma NoGlobal(env: Env, ebp: u64, cus: Table<CuView>, a: u64)
    requires cus == []
    ensures IsFirstGlobal(env, ebp, cus, a, None)
  {}

  lemma HeadGlobal(env: Env, ebp: u64, cus: Table<CuView>, a: u64, v: Option<Entry<Static>>)
    requires cus != [] && v.Some? && IsFirstVariable(env, ebp, cus[0].rec.vars, a, v)
    ensures IsFirstGlobal(env, ebp, cus, a, v)
  {
    Hits(env, ebp, cus[0].rec.vars, a, v);
    hide VariableHas, NoneHas, IsFirstVariable;
  }

  lemma TailGlobal(env: Env, ebp: u64, cus: Table<CuView>, a: u64, v: Option<Entry<Static>>)
    requires cus != [] && NoneHas(env, ebp, cus[0].rec.vars, a)
    requires IsFirstGlobal(env, ebp, cus[1..], a, v)
    ensures IsFirstGlobal(env, ebp, cus, a, v)
  {
    hide VariableHas, NoneHas, IsFirstVariable;
    var tail := cus[1..];
    if forall k :: 0 <= k < |tail| ==> NoneHas(env, ebp, tail[k].rec.vars, a) {
      forall k | 0 <= k < |cus| ensures NoneHas(env, ebp, cus[k].rec.vars, a) {
        assert k > 0 ==> cus[k] == tail[k - 1];
      }
    } else {
      var i :| 0 <= i < |tail| && IsFirstVariable(env, ebp, tail[i].rec.vars, a, v) &&
               forall k :: 0 <= k < i ==> NoneHas(env, ebp, tail[k].rec.vars, a);
      Hits(env, ebp, tail[i].rec.vars, a, v);
      assert cus[i + 1] == tail[i];
      forall k | 0 <= k < i + 1 ensures NoneHas(env, ebp, cus[k].rec.vars, a) {
        assert k > 0 ==> cus[k] == tail[k - 1];
      }
    }
  }

  lemma Hits(env: Env, ebp: u64, t: Table<Static>, a: u64, v: Option<Entry<Static>>)
    requires IsFirstVariable(env, ebp, t, a, v)
    ensures NoneHas(env, ebp, t, a) <==> v.None?
  {}
}
