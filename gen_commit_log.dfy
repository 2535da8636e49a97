/**
 * The golden-log converter of sim/prog4/gen_commit_log.py.
 *
 * A line of the reference simulator's log arrives as the fields its three
 * patterns matched: the program counter and instruction of the base pattern,
 * the address and optional data of a `mem` access, and the register prefix,
 * number and value of a register write. The per-line decision drops boot-ROM
 * lines, lets a store win over a register write, remaps `f` registers to
 * 32-63 and drops lines with neither effect; the surviving records are
 * formatted and written in input order.
 */
module GenCommitLog {

  import opened Options
  import CompareLog

  /** Lines whose program counter is below this address belong to the boot ROM. */
  const BootEnd: nat := 0x2000

  /** Register-file offset of the floating-point registers in the unified index space. */
  const FloatBase: nat := 32

  // ---------------------------------------------------------------------------
  // Matched fields
  // ---------------------------------------------------------------------------

  predicate IsHexDigit(c: char) {
    '0' <= c <= '9' || 'a' <= c <= 'f' || 'A' <= c <= 'F'
  }

  predicate IsDecimalDigit(c: char) {
    '0' <= c <= '9'
  }

  /** Text the group `(0x[0-9a-fA-F]+)` matches. */
  predicate IsHexLiteral(s: string) {
    |s| >= 3 && s[0] == '0' && s[1] == 'x' && forall i :: 2 <= i < |s| ==> IsHexDigit(s[i])
  }

  type HexLiteral = s: string | IsHexLiteral(s) witness "0x0"

  /** Text the group `([xf])` matches. */
  type RegPrefix = c: char | c == 'x' || c == 'f' witness 'x'

  /** The base pattern `core N: P <pc> (<inst>)`. */
  datatype BaseMatch = BaseMatch(pc: HexLiteral, inst: HexLiteral)

  /** The `mem <addr> [<data>]` pattern; a load has no data. */
  datatype MemMatch = MemMatch(addr: HexLiteral, data: Option<HexLiteral>)

  /** The register pattern `<x|f><num> <value>`, with the number already parsed as decimal. */
  datatype RegMatch = RegMatch(prefix: RegPrefix, num: nat, value: HexLiteral)

  /** What the three patterns found on one line of the simulator log. */
  datatype SpikeLine = SpikeLine(base: Option<BaseMatch>, mem: Option<MemMatch>, reg: Option<RegMatch>)

  // ---------------------------------------------------------------------------
  // Numbers
  // ---------------------------------------------------------------------------

  /** The value of one hexadecimal digit, in either case. */
  function HexDigitValue(c: char): (v: nat)
    requires IsHexDigit(c)
    ensures v < 16
  {
    if '0' <= c <= '9' then c as int - '0' as int
    else if 'a' <= c <= 'f' then c as int - 'a' as int + 10
    else c as int - 'A' as int + 10
  }

  /** `int(s, 16)` ignores case: a digit and its lower-case form have the same value. */
  lemma HexDigitCase(c: char)
    requires IsHexDigit(c)
    ensures IsHexDigit(CompareLog.LowerChar(c)) && HexDigitValue(CompareLog.LowerChar(c)) == HexDigitValue(c)
  {
  }

  /** The lower-case digit of a value below 16, as a hexadecimal printer writes it. */
  function HexDigitChar(v: nat): (c: char)
    requires v < 16
    ensures IsHexDigit(c) && HexDigitValue(c) == v
  {
    if v < 10 then ('0' as int + v) as char else ('a' as int + v - 10) as char
  }

  function Pow16(n: nat): (p: nat)
    ensures p >= 1
  {
    if n == 0 then 1 else 16 * Pow16(n - 1)
  }

  /** The value of a string of hexadecimal digits, most significant first. */
  function HexValue(digits: string): nat
    requires forall i :: 0 <= i < |digits| ==> IsHexDigit(digits[i])
  {
    if digits == [] then 0
    else 16 * HexValue(digits[..|digits| - 1]) + HexDigitValue(digits[|digits| - 1])
  }

  /** `int(s, 16)` for a literal with its `0x` prefix. */
  function LiteralValue(s: HexLiteral): nat {
    HexValue(s[2..])
  }

  /** `n` hexadecimal digits have a value below `16^n`. */
  lemma {:induction false} HexValueBound(digits: string)
    requires forall i :: 0 <= i < |digits| ==> IsHexDigit(digits[i])
    ensures HexValue(digits) < Pow16(|digits|)
    decreases |digits|
  {
    if digits != [] {
      var front := digits[..|digits| - 1];
      HexValueBound(front);
      var h, d := HexValue(front), HexDigitValue(digits[|digits| - 1]);
      assert h + 1 <= Pow16(|front|);
      assert 16 * (h + 1) <= 16 * Pow16(|front|);
    }
  }

  /** `n` written with `width` lower-case hexadecimal digits, zero-padded on the left. */
  function HexDigits(n: nat, width: nat): (s: string)
    ensures |s| == width && forall i :: 0 <= i < |s| ==> IsHexDigit(s[i])
  {
    if width == 0 then "" else HexDigits(n / 16, width - 1) + [HexDigitChar(n % 16)]
  }

  /** `int(s, 16)` reads back every number that fits in the digits it was printed with. */
  lemma {:induction false} HexRoundTrip(n: nat, width: nat)
    requires n < Pow16(width)
    ensures HexValue(HexDigits(n, width)) == n
    decreases width
  {
    if width > 0 {
      var s := HexDigits(n, width);
      assert s[..|s| - 1] == HexDigits(n / 16, width - 1);
      assert n / 16 < Pow16(width - 1);
      HexRoundTrip(n / 16, width - 1);
    }
  }

  /** A leading zero digit does not change the value, so zero-padded program counters parse as their address. */
  lemma {:induction false} HexLeadingZero(d: string)
    requires forall i :: 0 <= i < |d| ==> IsHexDigit(d[i])
    ensures HexValue("0" + d) == HexValue(d)
    decreases |d|
  {
    var z := "0" + d;
    if d != [] {
      assert z[..|z| - 1] == "0" + d[..|d| - 1];
      assert z[|z| - 1] == d[|d| - 1];
      HexLeadingZero(d[..|d| - 1]);
    }
  }

  /** The literal `0x<digits>` of a printed address parses back as that address. */
  lemma LiteralOfPrinted(n: nat, width: nat)
    requires 1 <= width && n < Pow16(width)
    ensures IsHexLiteral("0x" + HexDigits(n, width))
    ensures LiteralValue("0x" + HexDigits(n, width)) == n
  {
    var s := "0x" + HexDigits(n, width);
    assert s[2..] == HexDigits(n, width);
    HexRoundTrip(n, width);
  }

  function DecimalDigit(d: nat): (c: char)
    requires d < 10
    ensures IsDecimalDigit(c) && c as int - '0' as int == d
  {
    ('0' as int + d) as char
  }

  /** `str(n)`: the decimal digits of `n`, without leading zeros. */
  function Decimal(n: nat): (s: string)
    ensures s != [] && forall i :: 0 <= i < |s| ==> IsDecimalDigit(s[i])
    ensures |s| > 1 ==> s[0] != '0'
    decreases n
  {
    if n < 10 then [DecimalDigit(n)] else Decimal(n / 10) + [DecimalDigit(n % 10)]
  }

  /** `int(s)` for a string of decimal digits. */
  function DecimalValue(s: string): nat
    requires forall i :: 0 <= i < |s| ==> IsDecimalDigit(s[i])
  {
    if s == [] then 0
    else
      assert IsDecimalDigit(s[|s| - 1]);
      10 * DecimalValue(s[..|s| - 1]) + (s[|s| - 1] as int - '0' as int)
  }

  /** The register index printed in a record reads back as that index. */
  lemma {:induction false} DecimalRoundTrip(n: nat)
    ensures DecimalValue(Decimal(n)) == n
    decreases n
  {
    if n >= 10 {
      DecimalRoundTrip(n / 10);
      var s := Decimal(n);
      assert s[..|s| - 1] == Decimal(n / 10);
    }
  }

  /** `f"{s:<width}"`: `s` padded with spaces on the right up to `width` characters. */
  function LeftJustify(s: string, width: nat): (r: string)
    ensures |r| == if |s| < width then width else |s|
    ensures r[..|s|] == s
    ensures CompareLog.AllSpaces(r[|s|..])
  {
    if |s| < width then s + seq(width - |s|, _ => ' ') else s
  }

  // ---------------------------------------------------------------------------
  // The per-line decision
  // ---------------------------------------------------------------------------

  /** The effect a kept line records. */
  datatype Effect =
    | Store(addr: HexLiteral, data: HexLiteral)
    | RegWrite(index: nat, value: HexLiteral)

  /** One line of the golden trace before formatting. */
  datatype Commit = Commit(pc: HexLiteral, inst: HexLiteral, effect: Effect)

  /** `final_idx`: integer registers keep their number, floating-point ones move up by 32. */
  function RegIndex(prefix: RegPrefix, num: nat): (idx: nat)
    ensures num < 32 ==> idx < 64 && (idx < FloatBase <==> prefix == 'x') && idx % 32 == num
  {
    if prefix == 'f' then num + FloatBase else num
  }

  /** A `mem` match with a data field: a store. */
  predicate IsStore(line: SpikeLine) {
    line.mem.Some? && line.mem.value.data.Some?
  }

  /**
   * The decision of parse_and_convert for one line: no base match or a boot-ROM
   * program counter gives nothing; otherwise a store wins over a register
   * write (a load, a `mem` match without data, falls through to the register
   * case), and a line with neither gives nothing.
   */
  function Decide(line: SpikeLine): (r: Option<Commit>)
    ensures r.Some? <==>
              line.base.Some? && LiteralValue(line.base.value.pc) >= BootEnd && (IsStore(line) || line.reg.Some?)
    ensures r.Some? ==> r.value.pc == line.base.value.pc && r.value.inst == line.base.value.inst
    ensures r.Some? && IsStore(line) ==> r.value.effect == Store(line.mem.value.addr, line.mem.value.data.value)
    ensures r.Some? && !IsStore(line) ==>
              r.value.effect == RegWrite(RegIndex(line.reg.value.prefix, line.reg.value.num), line.reg.value.value)
  {
    match line.base
    case None => None
    case Some(base) =>
      if LiteralValue(base.pc) < BootEnd then None
      else if IsStore(line) then
        Some(Commit(base.pc, base.inst, Store(line.mem.value.addr, line.mem.value.data.value)))
      else if line.reg.Some? then
        var reg := line.reg.value;
        Some(Commit(base.pc, base.inst, RegWrite(RegIndex(reg.prefix, reg.num), reg.value)))
      else None
  }

  // ---------------------------------------------------------------------------
  // Output
  // ---------------------------------------------------------------------------

  /** The output line: `pc (inst) mem addr data` or `pc (inst) x<idx:<2> value`. */
  function Format(c: Commit): (line: string)
    ensures c.pc + " (" + c.inst + ") " <= line
  {
    var head := c.pc + " (" + c.inst + ")";
    match c.effect
    case Store(addr, data) => head + " mem " + addr + " " + data
    case RegWrite(index, value) => head + " x" + LeftJustify(Decimal(index), 2) + " " + value
  }

  /** The record the comparator reads from a formatted line. */
  function Tokens(c: Commit): CompareLog.Record {
    var head := [CompareLog.Lower(c.pc), "(" + CompareLog.Lower(c.inst) + ")"];
    match c.effect
    case Store(addr, data) => head + ["mem", CompareLog.Lower(addr), CompareLog.Lower(data)]
    case RegWrite(index, value) => head + ["x" + Decimal(index), CompareLog.Lower(value)]
  }

  /** One input line to at most one output line. */
  function ConvertLine(line: SpikeLine): Option<string> {
    match Decide(line)
    case None => None
    case Some(c) => Some(Format(c))
  }

  /** What one input line contributes to the golden trace: its commit, or nothing. */
  function CommitOf(line: SpikeLine): (cs: seq<Commit>)
    ensures |cs| <= 1
  {
    match Decide(line)
    case Some(c) => [c]
    case None => []
  }

  /** The commits of a whole log, in the order of their lines: at most one per line. */
  function Commits(lines: seq<SpikeLine>): (cs: seq<Commit>)
    ensures |cs| <= |lines|
  {
    if lines == [] then [] else Commits(lines[..|lines| - 1]) + CommitOf(lines[|lines| - 1])
  }

  /**
   * The loop of parse_and_convert: the lines written to the output file, one
   * per kept input line and in input order, each ended by a newline.
   */
  method ParseAndConvert(lines: seq<SpikeLine>) returns (out: seq<string>)
    ensures |out| == |Commits(lines)|
    ensures forall k :: 0 <= k < |out| ==> out[k] == Format(Commits(lines)[k]) + "\n"
  {
    out := [];
    ghost var cs: seq<Commit> := [];
    for i := 0 to |lines|
      invariant cs == Commits(lines[..i])
      invariant |out| == |cs|
      invariant forall k :: 0 <= k < |out| ==> out[k] == Format(cs[k]) + "\n"
    {
      assert lines[..i + 1][..i] == lines[..i];
      assert Commits(lines[..i + 1]) == cs + CommitOf(lines[i]);
      var o := ConvertLine(lines[i]);
      if o.Some? {
        WrittenSnoc(out, cs, Decide(lines[i]).value);
        out := out + [o.value + "\n"];
      }
      cs := cs + CommitOf(lines[i]);
    }
    assert lines[..|lines|] == lines;
  }

  // ---------------------------------------------------------------------------
  // Lemmas
  // ---------------------------------------------------------------------------

  /** Writing one more commit keeps the written lines in step with the commits. */
  lemma WrittenSnoc(out: seq<string>, cs: seq<Commit>, c: Commit)
    requires |out| == |cs| && forall k :: 0 <= k < |out| ==> out[k] == Format(cs[k]) + "\n"
    ensures forall k :: 0 <= k < |out| + 1 ==> (out + [Format(c) + "\n"])[k] == Format((cs + [c])[k]) + "\n"
  {
  }

  /** One more input line adds its own contribution at the end. */
  lemma CommitsSnoc(lines: seq<SpikeLine>, line: SpikeLine)
    ensures Commits(lines + [line]) == Commits(lines) + CommitOf(line)
  {
    var l := lines + [line];
    assert l[..|l| - 1] == lines && l[|l| - 1] == line;
  }

  lemma ConcatAssoc<T>(x: seq<T>, y: seq<T>, z: seq<T>)
    ensures (x + y) + z == x + (y + z)
  {
  }

  /** The inductive step of `CommitsAppend`: one more line at the end of the second part. */
  lemma CommitsAppendStep(a: seq<SpikeLine>, front: seq<SpikeLine>, last: SpikeLine)
    requires Commits(a + front) == Commits(a) + Commits(front)
    ensures Commits(a + (front + [last])) == Commits(a) + Commits(front + [last])
  {
    var af := a + front;
    assert a + (front + [last]) == af + [last];
    CommitsSnoc(af, last);
    CommitsSnoc(front, last);
    var ca, cf, cl := Commits(a), Commits(front), CommitOf(last);
    assert Commits(af + [last]) == (ca + cf) + cl;
    ConcatAssoc(ca, cf, cl);
  }

  /** No commit of a converted log comes from the boot ROM. */
  lemma {:induction false} CommitsOutsideBootRom(lines: seq<SpikeLine>)
    ensures forall k :: 0 <= k < |Commits(lines)| ==> LiteralValue(Commits(lines)[k].pc) >= BootEnd
    decreases |lines|
  {
    if lines != [] {
      CommitsOutsideBootRom(lines[..|lines| - 1]);
    }
  }

  /** Splitting the log keeps the commits of each part in order. */
  lemma {:induction false} CommitsAppend(a: seq<SpikeLine>, b: seq<SpikeLine>)
    ensures Commits(a + b) == Commits(a) + Commits(b)
    decreases |b|
  {
    if b == [] {
      assert a + b == a;
    } else {
      var front, last := b[..|b| - 1], b[|b| - 1];
      assert b == front + [last];
      CommitsAppend(a, front);
      CommitsAppendStep(a, front, last);
    }
  }

}
