/**
 * The commit-trace normaliser and comparator of sim/compare_log.py.
 *
 * A raw trace line becomes either no record or a list of tokens (`CleanLine`);
 * the comparator filters both traces down to their records and decides a
 * verdict in three ordered steps: a length-deficit check, a fail-fast
 * positional comparison of whole records, and a bounded tolerance for
 * trailing extra RTL records. The process exit of the source becomes the
 * returned `Verdict`.
 */
module CompareLog {

  import opened Options

  /** One normalised trace line. */
  type Record = seq<string>

  /** Extra trailing RTL records still accepted as the simulator's exit sequence. */
  const MaxTrailing: nat := 10

  // ---------------------------------------------------------------------------
  // Characters
  // ---------------------------------------------------------------------------

  /** Python's `str.isspace`: what `str.strip()` and `str.split()` treat as whitespace. */
  predicate IsSpace(c: char) {
    c == ' ' || '\t' <= c <= '\r' || '\U{1c}' <= c <= '\U{1f}' || c == '\U{85}' || c == '\U{a0}'
    || c == '\U{1680}' || '\U{2000}' <= c <= '\U{200a}' || c == '\U{2028}' || c == '\U{2029}'
    || c == '\U{202f}' || c == '\U{205f}' || c == '\U{3000}'
  }

  predicate IsUpper(c: char) {
    'A' <= c <= 'Z'
  }

  /** The lower-case letter of an upper-case ASCII letter; any other character unchanged. */
  function LowerChar(c: char): (r: char)
    ensures !IsUpper(r) && (IsSpace(r) <==> IsSpace(c)) && (r == '_' <==> c == '_')
    ensures !IsUpper(c) ==> r == c
    ensures IsUpper(c) ==> 'a' <= r <= 'z' && r as int - c as int == 'a' as int - 'A' as int
  {
    if IsUpper(c) then (c as int + 32) as char else c
  }

  /** A character that can survive normalisation. */
  predicate IsCanonicalChar(c: char) {
    !IsSpace(c) && c != '_' && !IsUpper(c)
  }

  predicate AllSpaces(s: string) {
    forall i :: 0 <= i < |s| ==> IsSpace(s[i])
  }

  /** A maximal piece of `split()` output: non-empty, no whitespace. */
  predicate IsToken(w: string) {
    w != [] && forall i :: 0 <= i < |w| ==> !IsSpace(w[i])
  }

  /** A token of a normalised record. */
  predicate IsCanonicalToken(w: string) {
    w != [] && forall i :: 0 <= i < |w| ==> IsCanonicalChar(w[i])
  }

  // ---------------------------------------------------------------------------
  // The string operations clean_line uses
  // ---------------------------------------------------------------------------

  /** `s.lstrip()`. */
  function TrimStart(s: string): (r: string)
    ensures |r| <= |s| && r == s[|s| - |r|..]
    ensures r == [] || !IsSpace(r[0])
    ensures forall i :: 0 <= i < |s| - |r| ==> IsSpace(s[i])
  {
    if s != [] && IsSpace(s[0]) then TrimStart(s[1..]) else s
  }

  /** `s.rstrip()`. */
  function TrimEnd(s: string): (r: string)
    ensures |r| <= |s| && r == s[..|r|]
    ensures r == [] || !IsSpace(r[|r| - 1])
    ensures forall i :: |r| <= i < |s| ==> IsSpace(s[i])
  {
    if s != [] && IsSpace(s[|s| - 1]) then TrimEnd(s[..|s| - 1]) else s
  }

  /** `s.strip()`: the text between the leading and the trailing whitespace. */
  function Strip(s: string): (r: string)
    ensures r == [] <==> AllSpaces(s)
    ensures r != [] ==> !IsSpace(r[0]) && !IsSpace(r[|r| - 1])
    ensures s != [] && !IsSpace(s[0]) && !IsSpace(s[|s| - 1]) ==> r == s
  {
    var t := TrimStart(s);
    var r := TrimEnd(t);
    assert r != [] ==> r[0] == t[0];
    r
  }

  /** `s.replace("_", "")`. */
  function RemoveUnderscores(s: string): (r: string)
    ensures '_' !in r
    ensures forall c :: c in r ==> c in s
    ensures '_' !in s ==> r == s
  {
    if s == [] then []
    else if s[0] == '_' then RemoveUnderscores(s[1..])
    else [s[0]] + RemoveUnderscores(s[1..])
  }

  /** `s.lower()`, restricted to the ASCII letters. */
  function Lower(s: string): (r: string)
    ensures |r| == |s|
  {
    seq(|s|, i requires 0 <= i < |s| => LowerChar(s[i]))
  }

  /** Length of the run of non-whitespace characters that starts `s`. */
  function WordLength(s: string): (n: nat)
    ensures n <= |s|
    ensures forall i :: 0 <= i < n ==> !IsSpace(s[i])
    ensures n < |s| ==> IsSpace(s[n])
  {
    if s == [] || IsSpace(s[0]) then 0 else 1 + WordLength(s[1..])
  }

  /** `s.split()`: the maximal whitespace-free runs of `s`, in order. */
  function Split(s: string): (tokens: seq<string>)
    ensures forall k :: 0 <= k < |tokens| ==> IsToken(tokens[k])
    ensures forall k, i :: 0 <= k < |tokens| && 0 <= i < |tokens[k]| ==> tokens[k][i] in s
    decreases |s|
  {
    if s == [] then []
    else if IsSpace(s[0]) then Split(s[1..])
    else
      var n := WordLength(s);
      [s[..n]] + Split(s[n..])
  }

  /** `" ".join(tokens)`. */
  function Join(tokens: seq<string>): string {
    if tokens == [] then ""
    else if |tokens| == 1 then tokens[0]
    else tokens[0] + " " + Join(tokens[1..])
  }

  // ---------------------------------------------------------------------------
  // clean_line
  // ---------------------------------------------------------------------------

  /**
   * One raw line to one record, or to none for an empty, blank, header,
   * separator or comment line. The `PC` test is case-sensitive and runs on the
   * stripped text before underscores are removed and the text is lower-cased.
   */
  function CleanLine(line: string): (r: Option<Record>)
    ensures r.None? <==> AllSpaces(line) || "PC" <= Strip(line) || "-" <= Strip(line) || "#" <= Strip(line)
    ensures r.Some? ==> forall k :: 0 <= k < |r.value| ==> IsCanonicalToken(r.value[k])
  {
    if line == [] then None
    else
      var s := Strip(line);
      if s == [] || "PC" <= s || "-" <= s || "#" <= s then None
      else
        var u := RemoveUnderscores(s);
        LoweredTokensCanonical(u);
        Some(Split(Lower(u)))
  }

  /** Splitting lower-cased text without underscores gives canonical tokens. */
  lemma LoweredTokensCanonical(u: string)
    requires '_' !in u
    ensures forall k :: 0 <= k < |Split(Lower(u))| ==> IsCanonicalToken(Split(Lower(u))[k])
  {
    var l := Lower(u);
    var tokens := Split(l);
    forall k, i | 0 <= k < |tokens| && 0 <= i < |tokens[k]| ensures IsCanonicalChar(tokens[k][i]) {
      var c := tokens[k][i];
      assert c in l;
      var j :| 0 <= j < |l| && l[j] == c;
      assert u[j] in u;
    }
  }

  // ---------------------------------------------------------------------------
  // Lemmas about the normaliser
  // ---------------------------------------------------------------------------

  /** `strip()` keeps exactly the text between a leading and a trailing whitespace run. */
  lemma StripBetweenBlanks(s: string)
    ensures exists i, j :: 0 <= i <= j <= |s| && Strip(s) == s[i..j] && AllSpaces(s[..i]) && AllSpaces(s[j..])
  {
    var t := TrimStart(s);
    BetweenBlanks(s, t, TrimEnd(t));
  }

  lemma BetweenBlanks(s: string, t: string, r: string)
    requires |t| <= |s| && t == s[|s| - |t|..] && forall i :: 0 <= i < |s| - |t| ==> IsSpace(s[i])
    requires |r| <= |t| && r == t[..|r|] && forall i :: |r| <= i < |t| ==> IsSpace(t[i])
    ensures exists i, j :: 0 <= i <= j <= |s| && r == s[i..j] && AllSpaces(s[..i]) && AllSpaces(s[j..])
  {
    var i := |s| - |t|;
    assert r == s[i..i + |r|];
    var head, tail := s[..i], s[i + |r|..];
    forall k | 0 <= k < |head| ensures IsSpace(head[k]) {
      assert head[k] == s[k];
    }
    forall k | 0 <= k < |tail| ensures IsSpace(tail[k]) {
      assert tail[k] == t[|r| + k];
    }
  }

  /** `replace("_", "")` keeps every other character, as often as it occurs. */
  lemma {:induction false} RemoveUnderscoresCounts(s: string)
    ensures multiset(RemoveUnderscores(s)) == multiset(s)['_' := 0]
    decreases |s|
  {
    if s != [] {
      RemoveUnderscoresCounts(s[1..]);
      assert s == [s[0]] + s[1..];
      assert multiset(s) == multiset{s[0]} + multiset(s[1..]);
    }
  }

  /** Removing underscores works piece by piece, so the kept characters stay in order. */
  lemma {:induction false} RemoveUnderscoresAppend(a: string, b: string)
    ensures RemoveUnderscores(a + b) == RemoveUnderscores(a) + RemoveUnderscores(b)
    decreases |a|
  {
    if a == [] {
      assert a + b == b;
    } else {
      assert (a + b)[0] == a[0];
      assert (a + b)[1..] == a[1..] + b;
      RemoveUnderscoresAppend(a[1..], b);
    }
  }

  /**
   * `lower()` leaves no upper-case letter, replaces each by its lower-case
   * letter, and keeps every other character where it is.
   */
  lemma LowerLetters(s: string)
    ensures |Lower(s)| == |s|
    ensures forall i :: 0 <= i < |s| ==> !IsUpper(Lower(s)[i])
    ensures forall i :: 0 <= i < |s| && !IsUpper(s[i]) ==> Lower(s)[i] == s[i]
    ensures forall i :: 0 <= i < |s| && IsUpper(s[i]) ==>
              'a' <= Lower(s)[i] <= 'z' && Lower(s)[i] as int - s[i] as int == 'a' as int - 'A' as int
  {
  }

  /** Lower-casing twice is lower-casing once. */
  lemma LowerIdempotent(s: string)
    ensures Lower(Lower(s)) == Lower(s)
  {
  }

  /** `lstrip()` of text followed by one whitespace character. */
  lemma {:induction false} TrimStartSnoc(s: string, c: char)
    requires IsSpace(c)
    ensures TrimStart(s + [c]) == if AllSpaces(s) then [] else TrimStart(s) + [c]
    decreases |s|
  {
    var l := s + [c];
    if s != [] && IsSpace(s[0]) {
      assert l[1..] == s[1..] + [c];
      TrimStartSnoc(s[1..], c);
      assert AllSpaces(s) <==> AllSpaces(s[1..]) by {
        if AllSpaces(s[1..]) {
          forall k | 0 <= k < |s| ensures IsSpace(s[k]) {
            if k > 0 { assert s[k] == s[1..][k - 1]; }
          }
        }
      }
    } else if s == [] {
      assert l[1..] == [];
    }
  }

  /** `rstrip()` drops one trailing whitespace character with the rest. */
  lemma TrimEndSnoc(t: string, c: char)
    requires IsSpace(c)
    ensures TrimEnd(t + [c]) == TrimEnd(t)
  {
    assert (t + [c])[..|t|] == t;
  }

  /** A trailing newline is part of the whitespace `strip()` removes. */
  lemma StripWithNewline(s: string)
    ensures Strip(s + "\n") == Strip(s)
  {
    TrimStartSnoc(s, '\n');
    if !AllSpaces(s) {
      TrimEndSnoc(TrimStart(s), '\n');
    }
  }

  /**
   * A line as `readlines` returns it, with its newline, normalises like the
   * line without it.
   */
  lemma CleanLineWithNewline(s: string)
    ensures CleanLine(s + "\n") == CleanLine(s)
  {
    StripWithNewline(s);
    if s == [] {
      assert AllSpaces(s + "\n");
    }
  }

  /** A whitespace run in front of the text does not change its tokens. */
  lemma {:induction false} SplitSkipsSpaces(gap: string, rest: string)
    requires AllSpaces(gap)
    ensures Split(gap + rest) == Split(rest)
    decreases |gap|
  {
    if gap == [] {
      assert gap + rest == rest;
    } else {
      assert (gap + rest)[0] == gap[0];
      assert (gap + rest)[1..] == gap[1..] + rest;
      SplitSkipsSpaces(gap[1..], rest);
    }
  }

  lemma {:induction false} WordLengthOfToken(w: string, rest: string)
    requires IsToken(w)
    requires rest == [] || IsSpace(rest[0])
    ensures WordLength(w + rest) == |w|
    decreases |w|
  {
    if |w| > 1 {
      assert (w + rest)[1..] == w[1..] + rest;
      WordLengthOfToken(w[1..], rest);
    } else {
      assert (w + rest)[1..] == rest;
    }
  }

  /** A token followed by whitespace (or by nothing) is split off whole. */
  lemma SplitToken(w: string, rest: string)
    requires IsToken(w)
    requires rest == [] || IsSpace(rest[0])
    ensures Split(w + rest) == [w] + Split(rest)
  {
    WordLengthOfToken(w, rest);
    assert (w + rest)[..|w|] == w;
    assert (w + rest)[|w|..] == rest;
  }

  /** A token, a whitespace run, then anything. */
  lemma SplitField(w: string, gap: string, rest: string)
    requires IsToken(w) && gap != [] && AllSpaces(gap)
    ensures Split(w + gap + rest) == [w] + Split(rest)
  {
    assert w + gap + rest == w + (gap + rest);
    SplitToken(w, gap + rest);
    SplitSkipsSpaces(gap, rest);
  }

  /** `split()` inverts `" ".join` on tokens. */
  lemma {:induction false} SplitJoin(tokens: seq<string>)
    requires forall k :: 0 <= k < |tokens| ==> IsToken(tokens[k])
    ensures Split(Join(tokens)) == tokens
    decreases |tokens|
  {
    if |tokens| == 1 {
      SplitToken(tokens[0], "");
      assert tokens[0] + "" == tokens[0];
    } else if |tokens| > 1 {
      SplitField(tokens[0], " ", Join(tokens[1..]));
      SplitJoin(tokens[1..]);
    }
  }

  /** Every character of a joined canonical record is a separator space or canonical. */
  lemma {:induction false} JoinChars(tokens: seq<string>)
    requires forall k :: 0 <= k < |tokens| ==> IsCanonicalToken(tokens[k])
    ensures forall i :: 0 <= i < |Join(tokens)| ==> Join(tokens)[i] == ' ' || IsCanonicalChar(Join(tokens)[i])
    ensures tokens != [] ==> IsCanonicalToken(tokens[0]) && Join(tokens) != [] && Join(tokens)[0] == tokens[0][0]
    ensures tokens != [] ==>
              IsCanonicalToken(tokens[|tokens| - 1])
              && Join(tokens)[|Join(tokens)| - 1] == tokens[|tokens| - 1][|tokens[|tokens| - 1]| - 1]
    decreases |tokens|
  {
    if |tokens| > 1 {
      JoinChars(tokens[1..]);
      var j := Join(tokens[1..]);
      assert Join(tokens) == (tokens[0] + " ") + j;
      forall i | 0 <= i < |Join(tokens)|
        ensures Join(tokens)[i] == ' ' || IsCanonicalChar(Join(tokens)[i])
      {
        if i < |tokens[0]| {
          assert Join(tokens)[i] == tokens[0][i];
        } else if i > |tokens[0]| {
          assert Join(tokens)[i] == j[i - |tokens[0]| - 1];
        }
      }
    }
  }

  /** Lower-casing works character by character, so it commutes with slicing. */
  lemma LowerSlice(s: string, i: int, j: int)
    requires 0 <= i <= j <= |s|
    ensures Lower(s)[i..j] == Lower(s[i..j])
  {
  }

  /** Lower-casing only touches letters, so it does not move token boundaries. */
  lemma {:induction false} WordLengthLower(s: string)
    ensures WordLength(Lower(s)) == WordLength(s)
    decreases |s|
  {
    if s != [] {
      assert Lower(s)[0] == LowerChar(s[0]);
      assert Lower(s)[1..] == Lower(s[1..]);
      WordLengthLower(s[1..]);
    }
  }

  /** The first step of splitting lower-cased text that starts with whitespace. */
  lemma SplitLowerSpace(s: string)
    requires s != [] && IsSpace(s[0])
    ensures Split(Lower(s)) == Split(Lower(s[1..])) && Split(s) == Split(s[1..])
  {
    var l := Lower(s);
    assert IsSpace(l[0]);
    LowerSlice(s, 1, |s|);
    assert l[1..] == Lower(s[1..]);
  }

  /** The first step of splitting lower-cased text that starts with a token. */
  lemma SplitLowerToken(s: string, n: nat)
    requires s != [] && !IsSpace(s[0]) && n == WordLength(s)
    ensures Split(Lower(s)) == [Lower(s[..n])] + Split(Lower(s[n..]))
    ensures Split(s) == [s[..n]] + Split(s[n..])
  {
    var l := Lower(s);
    assert !IsSpace(l[0]);
    WordLengthLower(s);
    LowerSlice(s, 0, n);
    LowerSlice(s, n, |s|);
    assert l[..n] == Lower(s[..n]) && l[n..] == Lower(s[n..]);
  }

  /** Lists that agree element-wise up to lower-casing still do with one more head each. */
  lemma LoweredCons(a: string, b: string, x: seq<string>, y: seq<string>)
    requires a == Lower(b) && |x| == |y| && forall k :: 0 <= k < |y| ==> x[k] == Lower(y[k])
    ensures |[a] + x| == |[b] + y|
    ensures forall k :: 0 <= k < |[b] + y| ==> ([a] + x)[k] == Lower(([b] + y)[k])
  {
    forall k | 0 <= k < |[b] + y| ensures ([a] + x)[k] == Lower(([b] + y)[k]) {
      if k > 0 {
        assert ([a] + x)[k] == x[k - 1] && ([b] + y)[k] == y[k - 1];
      }
    }
  }

  /** Splitting the lower-cased text gives the lower-cased tokens. */
  lemma {:induction false} SplitLower(s: string)
    ensures |Split(Lower(s))| == |Split(s)|
    ensures forall k :: 0 <= k < |Split(s)| ==> Split(Lower(s))[k] == Lower(Split(s)[k])
    decreases |s|
  {
    if s != [] {
      if IsSpace(s[0]) {
        SplitLowerSpace(s);
        SplitLower(s[1..]);
      } else {
        var n := WordLength(s);
        SplitLowerToken(s, n);
        SplitLower(s[n..]);
        LoweredCons(Lower(s[..n]), s[..n], Split(Lower(s[n..])), Split(s[n..]));
      }
    }
  }

  /**
   * Text that is already stripped, has no underscore and does not start like
   * a header, separator or comment line normalises to its lower-cased split.
   */
  lemma CleanLineOfPlainText(s: string)
    requires s != [] && !IsSpace(s[0]) && !IsSpace(s[|s| - 1])
    requires '_' !in s
    requires s[0] != 'P' && s[0] != '-' && s[0] != '#'
    ensures CleanLine(s) == Some(Split(Lower(s)))
  {
    assert Strip(s) == s;
    assert RemoveUnderscores(s) == s;
  }

  /** The join of canonical tokens is plain text that lower-casing leaves alone. */
  lemma JoinedPlain(t: Record)
    requires t != [] && forall k :: 0 <= k < |t| ==> IsCanonicalToken(t[k])
    ensures Join(t) != [] && !IsSpace(Join(t)[0]) && !IsSpace(Join(t)[|Join(t)| - 1])
    ensures '_' !in Join(t) && Join(t)[0] == t[0][0]
    ensures Lower(Join(t)) == Join(t)
  {
    var j := Join(t);
    JoinChars(t);
    assert '_' !in j by {
      forall i | 0 <= i < |j| ensures j[i] != '_' {
        assert j[i] == ' ' || IsCanonicalChar(j[i]);
      }
    }
    assert Lower(j) == j by {
      forall i | 0 <= i < |j| ensures Lower(j)[i] == j[i] {
        assert j[i] == ' ' || IsCanonicalChar(j[i]);
      }
    }
  }

  /** A record of canonical tokens, joined with single spaces, normalises back to itself. */
  lemma JoinedRecordNormalises(t: Record)
    requires t != [] && forall k :: 0 <= k < |t| ==> IsCanonicalToken(t[k])
    requires !("-" <= t[0]) && !("#" <= t[0])
    ensures CleanLine(Join(t)) == Some(t)
  {
    var j := Join(t);
    JoinedPlain(t);
    assert IsCanonicalToken(t[0]);
    assert j[0] != 'P' && j[0] != '-' && j[0] != '#';
    CleanLineOfPlainText(j);
    forall k | 0 <= k < |t| ensures IsToken(t[k]) {
      assert IsCanonicalToken(t[k]);
    }
    SplitJoin(t);
  }

  /**
   * Normalisation is idempotent: a line that gives the non-empty record `t`
   * and the line `" ".join(t)` give the same record, provided the first token
   * does not begin with '-' or '#'.
   */
  lemma CleanLineIdempotent(line: string, t: Record)
    requires CleanLine(line) == Some(t)
    requires t != [] && !("-" <= t[0]) && !("#" <= t[0])
    ensures CleanLine(Join(t)) == Some(t)
  {
    JoinedRecordNormalises(t);
  }

  /**
   * The condition of CleanLineIdempotent is needed: the '-' test runs before
   * underscores are removed, so "_-1" gives ["-1"], whose join "-1" is a
   * separator line.
   */
  lemma IdempotenceCounterexample()
    ensures CleanLine("_-1") == Some(["-1"])
    ensures CleanLine(Join(["-1"])) == None
  {
    UnderscoreDashLine();
    assert Join(["-1"]) == "-1";
  }

  lemma UnderscoreDashLine()
    ensures CleanLine("_-1") == Some(["-1"])
  {
    var line := "_-1";
    assert !IsSpace(line[0]) && !IsSpace(line[2]);
    assert Strip(line) == line;
    DashOne();
    assert line[1..] == "-1" && line[1..][1..] == "1" && line[1..][1..][1..] == [];
    assert RemoveUnderscores(line) == "-1";
  }

  lemma DashOne()
    ensures Lower("-1") == "-1" && Split("-1") == ["-1"]
  {
    var w := "-1";
    assert IsToken(w);
    SplitToken(w, "");
    assert w + "" == w;
  }

  /** Text made only of underscores is a record with no tokens, not a skipped line. */
  lemma UnderscoresOnly(line: string)
    requires line != []
    requires forall i :: 0 <= i < |line| ==> line[i] == '_'
    ensures CleanLine(line) == Some([])
  {
    assert Strip(line) == line;
    NothingButUnderscores(line);
  }

  lemma {:induction false} NothingButUnderscores(s: string)
    requires forall i :: 0 <= i < |s| ==> s[i] == '_'
    ensures RemoveUnderscores(s) == []
    decreases |s|
  {
    if s != [] {
      NothingButUnderscores(s[1..]);
    }
  }

  // ---------------------------------------------------------------------------
  // Filtering a whole trace
  // ---------------------------------------------------------------------------

  /** The records of a list of raw lines, with the lines that give none dropped. */
  function Records(lines: seq<string>): (rs: seq<Record>)
    ensures |rs| <= |lines|
  {
    if lines == [] then [] else RecordOf(lines[0]) + Records(lines[1..])
  }

  /** What one line contributes to its trace: its record, or nothing. */
  function RecordOf(line: string): seq<Record> {
    match CleanLine(line)
    case Some(t) => [t]
    case None => []
  }

  /** Filtering keeps the records of each part in their order. */
  lemma {:induction false} RecordsAppend(a: seq<string>, b: seq<string>)
    ensures Records(a + b) == Records(a) + Records(b)
    decreases |a|
  {
    if a != [] {
      assert (a + b)[0] == a[0];
      assert (a + b)[1..] == a[1..] + b;
      RecordsAppend(a[1..], b);
      assert Records(a + b) == RecordOf(a[0]) + (Records(a[1..]) + Records(b));
    } else {
      assert a + b == b;
    }
  }

  /** When every line gives a record, there is one record per line, in order. */
  lemma {:induction false} RecordsAllKept(lines: seq<string>)
    requires forall k :: 0 <= k < |lines| ==> CleanLine(lines[k]).Some?
    ensures |Records(lines)| == |lines|
    ensures forall k :: 0 <= k < |lines| ==> Records(lines)[k] == CleanLine(lines[k]).value
    decreases |lines|
  {
    if lines != [] {
      var rest := lines[1..];
      RecordsAllKept(rest);
      var t := CleanLine(lines[0]).value;
      var rs := Records(rest);
      assert RecordOf(lines[0]) == [t];
      assert Records(lines) == [t] + rs;
      forall k | 1 <= k < |lines| ensures Records(lines)[k] == CleanLine(lines[k]).value {
        assert rest[k - 1] == lines[k] && Records(lines)[k] == rs[k - 1];
      }
    }
  }

  // ---------------------------------------------------------------------------
  // The comparison
  // ---------------------------------------------------------------------------

  datatype Verdict =
    | Pass
      /** Passed; the trailing RTL records listed were ignored. */
    | PassWithWarning(ignored: seq<Record>)
    | FailShort(rtlCount: nat, goldenCount: nat)
      /** The records at 0-based `index` differ; the source reports line `index + 1`. */
    | FailMismatch(index: nat, golden: Record, rtl: Record)
    | FailExcess(count: nat, firstExtra: Record)
  {
    predicate Passed() {
      Pass? || PassWithWarning?
    }

    /** The process exit status of the source. */
    function ExitStatus(): int {
      if Passed() then 0 else 1
    }
  }

  /** The first position, within both traces, where the records differ. */
  function FirstMismatch(rtl: seq<Record>, gold: seq<Record>): (r: Option<nat>)
    ensures r.None? <==> forall j :: 0 <= j < |rtl| && j < |gold| ==> rtl[j] == gold[j]
    ensures r.Some? ==> r.value < |rtl| && r.value < |gold| && rtl[r.value] != gold[r.value]
    ensures r.Some? ==> forall j :: 0 <= j < r.value ==> rtl[j] == gold[j]
    decreases |gold|
  {
    if rtl == [] || gold == [] then None
    else if rtl[0] != gold[0] then Some(0)
    else
      match FirstMismatch(rtl[1..], gold[1..])
      case None =>
        assert forall j :: 1 <= j < |rtl| && j < |gold| ==> rtl[j] == rtl[1..][j - 1] && gold[j] == gold[1..][j - 1];
        None
      case Some(i) =>
        assert rtl[i + 1] == rtl[1..][i] && gold[i + 1] == gold[1..][i];
        assert forall j :: 1 <= j < i + 1 ==> rtl[j] == rtl[1..][j - 1] && gold[j] == gold[1..][j - 1];
        Some(i + 1)
  }

  /** The verdict on two filtered traces. */
  function Compare(rtl: seq<Record>, gold: seq<Record>): (v: Verdict)
    // step 1: a short RTL trace fails whatever its content
    ensures v.FailShort? <==> |rtl| < |gold|
    ensures v.FailShort? ==> v == FailShort(|rtl|, |gold|)
    // step 2: the first differing record, compared whole
    ensures v.FailMismatch? <==> |rtl| >= |gold| && exists j :: 0 <= j < |gold| && rtl[j] != gold[j]
    ensures v.FailMismatch? ==>
              v.index < |gold| && rtl[v.index] != gold[v.index]
              && (forall j :: 0 <= j < v.index ==> rtl[j] == gold[j])
              && v.golden == gold[v.index] && v.rtl == rtl[v.index]
    // step 3: the trailing tolerance, once the golden trace is a prefix
    ensures v.FailExcess? <==> gold <= rtl && |rtl| - |gold| > MaxTrailing
    ensures v.FailExcess? ==> v.count == |rtl| - |gold| && v.firstExtra == rtl[|gold|]
    ensures v.PassWithWarning? <==> gold <= rtl && 1 <= |rtl| - |gold| <= MaxTrailing
    ensures v.PassWithWarning? ==> v.ignored == rtl[|gold|..]
    ensures v == Pass <==> rtl == gold
    ensures v.Passed() <==> |rtl| >= |gold| && gold == rtl[..|gold|] && |rtl| - |gold| <= MaxTrailing
  {
    if |rtl| < |gold| then FailShort(|rtl|, |gold|)
    else
      match FirstMismatch(rtl, gold)
      case Some(i) => FailMismatch(i, gold[i], rtl[i])
      case None =>
        assert gold == rtl[..|gold|];
        if |rtl| > |gold| then
          var extra := rtl[|gold|..];
          if |extra| > MaxTrailing then FailExcess(|extra|, extra[0])
          else PassWithWarning(extra)
        else
          assert rtl == gold;
          Pass
  }

  /**
   * compare_files on the lines of the two logs: filter both traces, then
   * compare their records.
   */
  method CompareFiles(rtlLines: seq<string>, goldLines: seq<string>) returns (v: Verdict)
    ensures v == Compare(Records(rtlLines), Records(goldLines))
  {
    var rtl := Records(rtlLines);
    var gold := Records(goldLines);
    v := CompareRecords(rtl, gold);
  }

  /**
   * The three ordered steps of compare_files: the length-deficit check, the
   * positional comparison over the zipped traces with an early exit, and the
   * trailing tolerance.
   */
  method CompareRecords(rtl: seq<Record>, gold: seq<Record>) returns (v: Verdict)
    ensures v == Compare(rtl, gold)
  {
    if |rtl| < |gold| {
      return FailShort(|rtl|, |gold|);
    }
    var i := 0;
    while i < |rtl| && i < |gold|
      invariant 0 <= i <= |gold|
      invariant forall j :: 0 <= j < i ==> rtl[j] == gold[j]
    {
      if rtl[i] != gold[i] {
        assert FirstMismatch(rtl, gold) == Some(i);
        return FailMismatch(i, gold[i], rtl[i]);
      }
      i := i + 1;
    }
    assert FirstMismatch(rtl, gold) == None;
    if |rtl| > |gold| {
      var extra := rtl[|gold|..];
      if |extra| > MaxTrailing {
        return FailExcess(|extra|, extra[0]);
      }
      return PassWithWarning(extra);
    }
    return Pass;
  }

  /**
   * The exit status of compare_files is 0 exactly when the RTL trace is at
   * least as long as the golden trace, has it as a prefix, and has at most
   * ten records more.
   */
  lemma CompareExitStatus(rtl: seq<Record>, gold: seq<Record>)
    ensures Compare(rtl, gold).ExitStatus() == 0 <==> |rtl| >= |gold| && gold <= rtl && |rtl| - |gold| <= MaxTrailing
  {
    if |rtl| >= |gold| {
      assert gold <= rtl <==> gold == rtl[..|gold|];
    }
  }

  /**
   * Record fields are compared whole: an RTL record that only adds a trailing
   * cycle count to the golden record is a mismatch.
   */
  lemma TrailingFieldIsMismatch(g: Record, extra: string)
    ensures Compare([g + [extra]], [g]) == FailMismatch(0, g, g + [extra])
  {
    assert |g + [extra]| != |g|;
  }
}
