/**
 * What the comparator of sim/compare_log.py reads back from the lines the
 * converter of sim/prog4/gen_commit_log.py writes: each formatted commit
 * normalises to exactly its intended record.
 */
module CommitReadBack {

  import opened Options
  import opened GenCommitLog
  import CompareLog

  lemma HexLiteralIsToken(s: HexLiteral)
    ensures CompareLog.IsToken(s) && '_' !in s
    ensures s[0] == '0' && !CompareLog.IsSpace(s[|s| - 1])
  {
    assert forall i :: 0 <= i < |s| ==> s[i] == '0' || s[i] == 'x' || IsHexDigit(s[i]);
  }

  lemma DecimalIsToken(n: nat)
    ensures CompareLog.IsToken(Decimal(n)) && '_' !in Decimal(n)
    ensures CompareLog.Lower(Decimal(n)) == Decimal(n)
  {
    var d := Decimal(n);
    assert forall i :: 0 <= i < |d| ==> IsDecimalDigit(d[i]);
  }

  lemma LowerAppend(a: string, b: string)
    ensures CompareLog.Lower(a + b) == CompareLog.Lower(a) + CompareLog.Lower(b)
  {
  }

  /** The two strings a store line and a register line are, up to regrouping. */
  lemma StoreLineShape(pc: string, inst: string, addr: string, data: string)
    ensures pc + " (" + inst + ")" + " mem " + addr + " " + data
            == pc + " " + (("(" + inst + ")") + " " + ("mem" + " " + (addr + " " + data)))
  {
  }

  lemma RegLineShape(pc: string, inst: string, dec: string, pad: string, value: string)
    ensures pc + " (" + inst + ")" + " x" + (dec + pad) + " " + value
            == pc + " " + (("(" + inst + ")") + " " + (("x" + dec) + (pad + " ") + value))
  {
  }

  /** Two tokens separated by a whitespace run. */
  lemma SplitPair(w: string, gap: string, v: string)
    requires CompareLog.IsToken(w) && CompareLog.IsToken(v)
    requires gap != [] && CompareLog.AllSpaces(gap)
    ensures CompareLog.Split(w + gap + v) == [w, v]
  {
    CompareLog.SplitField(w, gap, v);
    CompareLog.SplitToken(v, "");
    assert v + "" == v;
  }

  /** A token and a single space in front of text whose tokens are known. */
  lemma SplitCons(w: string, rest: string, tail: seq<string>)
    requires CompareLog.IsToken(w) && CompareLog.Split(rest) == tail
    ensures CompareLog.Split(w + " " + rest) == [w] + tail
  {
    CompareLog.SplitField(w, " ", rest);
  }

  /** The fields of a store after its instruction: `mem <addr> <data>`. */
  lemma SplitMemFields(addr: string, data: string)
    requires CompareLog.IsToken(addr) && CompareLog.IsToken(data)
    ensures CompareLog.Split("mem" + " " + (addr + " " + data)) == ["mem", addr, data]
  {
    SplitPair(addr, " ", data);
    SplitCons("mem", addr + " " + data, [addr, data]);
    assert ["mem"] + [addr, data] == ["mem", addr, data];
  }

  /** The fields of a store after its program counter. */
  lemma SplitInstMemFields(inst: string, addr: string, data: string)
    requires CompareLog.IsToken(inst) && CompareLog.IsToken(addr) && CompareLog.IsToken(data)
    ensures CompareLog.Split(inst + " " + ("mem" + " " + (addr + " " + data))) == [inst, "mem", addr, data]
  {
    SplitMemFields(addr, data);
    SplitCons(inst, "mem" + " " + (addr + " " + data), ["mem", addr, data]);
    assert [inst] + ["mem", addr, data] == [inst, "mem", addr, data];
  }

  lemma SplitStoreFields(pc: string, inst: string, addr: string, data: string)
    requires CompareLog.IsToken(pc) && CompareLog.IsToken(inst)
    requires CompareLog.IsToken(addr) && CompareLog.IsToken(data)
    ensures CompareLog.Split(pc + " " + (inst + " " + ("mem" + " " + (addr + " " + data))))
            == [pc, inst, "mem", addr, data]
  {
    SplitInstMemFields(inst, addr, data);
    SplitCons(pc, inst + " " + ("mem" + " " + (addr + " " + data)), [inst, "mem", addr, data]);
    assert [pc] + [inst, "mem", addr, data] == [pc, inst, "mem", addr, data];
  }

  lemma SplitRegFields(pc: string, inst: string, reg: string, gap: string, value: string)
    requires CompareLog.IsToken(pc) && CompareLog.IsToken(inst)
    requires CompareLog.IsToken(reg) && CompareLog.IsToken(value)
    requires gap != [] && CompareLog.AllSpaces(gap)
    ensures CompareLog.Split(pc + " " + (inst + " " + (reg + gap + value))) == [pc, inst, reg, value]
  {
    var r2 := reg + gap + value;
    SplitPair(reg, gap, value);
    SplitCons(inst, r2, [reg, value]);
    SplitCons(pc, inst + " " + r2, [inst, reg, value]);
  }

  lemma SplitStoreLine(pc: HexLiteral, inst: HexLiteral, addr: HexLiteral, data: HexLiteral)
    ensures CompareLog.Split(pc + " (" + inst + ")" + " mem " + addr + " " + data)
            == [pc, "(" + inst + ")", "mem", addr, data]
  {
    HexLiteralIsToken(pc);
    HexLiteralIsToken(inst);
    HexLiteralIsToken(addr);
    HexLiteralIsToken(data);
    assert CompareLog.IsToken("(" + inst + ")");
    StoreLineShape(pc, inst, addr, data);
    SplitStoreFields(pc, "(" + inst + ")", addr, data);
  }

  lemma SplitRegLine(pc: HexLiteral, inst: HexLiteral, index: nat, value: HexLiteral)
    ensures CompareLog.Split(pc + " (" + inst + ")" + " x" + LeftJustify(Decimal(index), 2) + " " + value)
            == [pc, "(" + inst + ")", "x" + Decimal(index), value]
  {
    HexLiteralIsToken(pc);
    HexLiteralIsToken(inst);
    HexLiteralIsToken(value);
    DecimalIsToken(index);
    assert CompareLog.IsToken("(" + inst + ")");
    var dec := Decimal(index);
    var padded := LeftJustify(dec, 2);
    var pad := padded[|dec|..];
    assert padded == dec + pad;
    assert CompareLog.AllSpaces(pad + " ");
    assert CompareLog.IsToken("x" + dec);
    RegLineShape(pc, inst, dec, pad, value);
    SplitRegFields(pc, "(" + inst + ")", "x" + dec, pad + " ", value);
  }

  /** Plain text whose tokens are known normalises to those tokens lower-cased. */
  lemma CleanPlainTokens(s: string, toks: seq<string>, rec: CompareLog.Record)
    requires s != [] && !CompareLog.IsSpace(s[0]) && !CompareLog.IsSpace(s[|s| - 1])
    requires '_' !in s && s[0] == '0'
    requires CompareLog.Split(s) == toks
    requires |rec| == |toks| && forall k :: 0 <= k < |toks| ==> rec[k] == CompareLog.Lower(toks[k])
    ensures CompareLog.CleanLine(s) == Some(rec)
  {
    SplitLowerIs(s, toks, rec);
    CompareLog.CleanLineOfPlainText(s);
  }

  lemma SplitLowerIs(s: string, toks: seq<string>, rec: CompareLog.Record)
    requires CompareLog.Split(s) == toks
    requires |rec| == |toks| && forall k :: 0 <= k < |toks| ==> rec[k] == CompareLog.Lower(toks[k])
    ensures CompareLog.Split(CompareLog.Lower(s)) == rec
  {
    CompareLog.SplitLower(s);
    var r := CompareLog.Split(CompareLog.Lower(s));
    assert forall k :: 0 <= k < |r| ==> r[k] == rec[k];
  }

  /** The instruction field in parentheses lower-cases inside the parentheses only. */
  lemma LowerParenthesised(inst: string)
    ensures CompareLog.Lower("(" + inst + ")") == "(" + CompareLog.Lower(inst) + ")"
  {
    LowerAppend("(", inst);
    LowerAppend("(" + inst, ")");
  }

  /** A store line is plain text: no surrounding blanks, no underscores, and it starts with `0`. */
  lemma StoreLinePlain(pc: HexLiteral, inst: HexLiteral, addr: HexLiteral, data: HexLiteral, s: string)
    requires s == pc + " (" + inst + ")" + " mem " + addr + " " + data
    ensures s != [] && !CompareLog.IsSpace(s[0]) && !CompareLog.IsSpace(s[|s| - 1])
    ensures '_' !in s && s[0] == '0'
  {
    HexLiteralIsToken(pc);
    HexLiteralIsToken(inst);
    HexLiteralIsToken(addr);
    HexLiteralIsToken(data);
    assert s[0] == pc[0];
    assert s[|s| - 1] == data[|data| - 1];
  }

  /** A register line is plain text: no surrounding blanks, no underscores, and it starts with `0`. */
  lemma RegLinePlain(pc: HexLiteral, inst: HexLiteral, index: nat, value: HexLiteral, s: string)
    requires s == pc + " (" + inst + ")" + " x" + LeftJustify(Decimal(index), 2) + " " + value
    ensures s != [] && !CompareLog.IsSpace(s[0]) && !CompareLog.IsSpace(s[|s| - 1])
    ensures '_' !in s && s[0] == '0'
  {
    HexLiteralIsToken(pc);
    HexLiteralIsToken(inst);
    HexLiteralIsToken(value);
    DecimalIsToken(index);
    assert '_' !in LeftJustify(Decimal(index), 2);
    assert s[0] == pc[0];
    assert s[|s| - 1] == value[|value| - 1];
  }

  lemma FormatStoreNormalises(pc: HexLiteral, inst: HexLiteral, addr: HexLiteral, data: HexLiteral)
    ensures CompareLog.CleanLine(Format(Commit(pc, inst, Store(addr, data))))
            == Some(Tokens(Commit(pc, inst, Store(addr, data))))
  {
    var c := Commit(pc, inst, Store(addr, data));
    var s := Format(c);
    var toks := [pc, "(" + inst + ")", "mem", addr, data];
    StoreLinePlain(pc, inst, addr, data, s);
    SplitStoreLine(pc, inst, addr, data);
    LowerParenthesised(inst);
    assert CompareLog.Lower("mem") == "mem";
    CleanPlainTokens(s, toks, Tokens(c));
  }

  lemma FormatRegNormalises(pc: HexLiteral, inst: HexLiteral, index: nat, value: HexLiteral)
    ensures CompareLog.CleanLine(Format(Commit(pc, inst, RegWrite(index, value))))
            == Some(Tokens(Commit(pc, inst, RegWrite(index, value))))
  {
    var c := Commit(pc, inst, RegWrite(index, value));
    var s := Format(c);
    var toks := [pc, "(" + inst + ")", "x" + Decimal(index), value];
    RegLinePlain(pc, inst, index, value, s);
    SplitRegLine(pc, inst, index, value);
    LowerParenthesised(inst);
    DecimalIsToken(index);
    LowerAppend("x", Decimal(index));
    assert CompareLog.Lower("x") == "x";
    CleanPlainTokens(s, toks, Tokens(c));
  }

  /**
   * The comparator reads back exactly the intended record from every output
   * line: the padding of the register index vanishes, so the index token is
   * `x<idx>`, and the hexadecimal fields are lower-cased.
   */
  lemma FormatNormalises(c: Commit)
    ensures CompareLog.CleanLine(Format(c)) == Some(Tokens(c))
  {
    match c.effect
    case Store(addr, data) => FormatStoreNormalises(c.pc, c.inst, addr, data);
    case RegWrite(index, value) => FormatRegNormalises(c.pc, c.inst, index, value);
  }

  /** Every output line is non-blank at both ends, so the newline written after it is stripped. */
  lemma FormatPlain(c: Commit)
    ensures Format(c) != [] && !CompareLog.IsSpace(Format(c)[0])
    ensures !CompareLog.IsSpace(Format(c)[|Format(c)| - 1])
  {
    match c.effect
    case Store(addr, data) => StoreLinePlain(c.pc, c.inst, addr, data, Format(c));
    case RegWrite(index, value) => RegLinePlain(c.pc, c.inst, index, value, Format(c));
  }

  /** A written line, newline included, reads back as the record of its commit. */
  lemma FormatWrittenNormalises(c: Commit)
    ensures CompareLog.CleanLine(Format(c) + "\n") == Some(Tokens(c))
  {
    FormatPlain(c);
    CompareLog.CleanLineWithNewline(Format(c));
    FormatNormalises(c);
  }

  /**
   * One input line of the golden converter: it produces output exactly when
   * it has a base match, a program counter outside the boot ROM, and a store
   * or a register write; and what it writes reads back as the record of the
   * commit it decided on.
   */
  lemma ConvertLineReadBack(line: SpikeLine)
    ensures ConvertLine(line).Some? <==>
              line.base.Some? && LiteralValue(line.base.value.pc) >= BootEnd && (IsStore(line) || line.reg.Some?)
    ensures ConvertLine(line).Some? ==>
              CompareLog.CleanLine(ConvertLine(line).value + "\n") == Some(Tokens(Decide(line).value))
  {
    if ConvertLine(line).Some? {
      FormatWrittenNormalises(Decide(line).value);
    }
  }

  /** The converted log, read back by the comparator, has one record per commit, in order. */
  lemma {:induction false} ConvertedLogRecords(cs: seq<Commit>, out: seq<string>)
    requires |out| == |cs| && forall k :: 0 <= k < |out| ==> out[k] == Format(cs[k]) + "\n"
    ensures |CompareLog.Records(out)| == |cs|
    ensures forall k :: 0 <= k < |cs| ==> CompareLog.Records(out)[k] == Tokens(cs[k])
  {
    forall k | 0 <= k < |out| ensures CompareLog.CleanLine(out[k]) == Some(Tokens(cs[k])) {
      FormatWrittenNormalises(cs[k]);
    }
    CompareLog.RecordsAllKept(out);
  }
}
