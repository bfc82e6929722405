// The text layer the request and response headers share: finding line
// ends, splitting the first line on spaces, trimming `key: value` lines,
// reading decimal numbers, and the loop over header lines that both
// `from_string` parsers run after their first line.
module HeaderText {
  import opened Wrappers
  import opened Decimal

  /** The longest header line, key, value and special value the parsers accept. */
  const MaxLine: nat := 8192
  const MaxKey: nat := 256
  const MaxValue: nat := 8192
  const MaxSpecial: nat := 512
  /** At most this many lines after the first are looked at; ordinary headers stop at 90. */
  const MaxLines: nat := 100
  const MaxOrdinary: nat := 90
  /** How far in the future (in milliseconds) a timestamp may lie. */
  const OneDay: nat := 86_400_000

  predicate CrlfAt(s: string, i: nat)
  {
    i + 1 < |s| && s[i] == '\r' && s[i + 1] == '\n'
  }

  /** `find("\r\n", from)`: the first line end at or after from. */
  function FindCrlf(s: string, from: nat): (r: Option<nat>)
    decreases |s| - from
    ensures r.Some? ==> from <= r.value && CrlfAt(s, r.value)
    ensures r.Some? ==> forall j :: from <= j < r.value ==> !CrlfAt(s, j)
    ensures r.None? ==> forall j :: from <= j ==> !CrlfAt(s, j)
  {
    if from + 1 >= |s| then None
    else if s[from] == '\r' && s[from + 1] == '\n' then Some(from)
    else FindCrlf(s, from + 1)
  }

  predicate BlankAt(s: string, i: nat)
  {
    CrlfAt(s, i) && CrlfAt(s, i + 2)
  }

  /** `find("\r\n\r\n", from)`: the first empty line at or after from. */
  function FindBlank(s: string, from: nat): (r: Option<nat>)
    decreases |s| - from
    ensures r.Some? ==> from <= r.value && BlankAt(s, r.value)
    ensures r.Some? ==> forall j :: from <= j < r.value ==> !BlankAt(s, j)
    ensures r.None? ==> forall j :: from <= j ==> !BlankAt(s, j)
  {
    if from + 3 >= |s| then None
    else if BlankAt(s, from) then Some(from)
    else FindBlank(s, from + 1)
  }

  /** `find(c)`: the first position of c. */
  function IndexOf(s: string, c: char): (r: Option<nat>)
    ensures r.Some? ==> r.value < |s| && s[r.value] == c
    ensures r.Some? ==> forall j :: 0 <= j < r.value ==> s[j] != c
    ensures r.None? ==> forall j :: 0 <= j < |s| ==> s[j] != c
  {
    if s == [] then None
    else if s[0] == c then Some(0)
    else match IndexOf(s[1..], c)
      case None => None
      case Some(j) => Some(j + 1)
  }

  predicate Lacks(s: string, c: char)
  {
    forall i :: 0 <= i < |s| ==> s[i] != c
  }

  // ------------------------------------------------------------ first line

  /** The length of the run of non-space characters that starts the line. */
  function Leading(line: string): (n: nat)
    ensures n <= |line| && Lacks(line[..n], ' ')
    ensures n < |line| ==> line[n] == ' '
  {
    if line == [] || line[0] == ' ' then 0 else 1 + Leading(line[1..])
  }

  /** The space-separated tokens of a line, empty tokens dropped. */
  function Tokens(line: string): (r: seq<string>)
    decreases |line|
    ensures forall i :: 0 <= i < |r| ==> r[i] != [] && Lacks(r[i], ' ')
  {
    if line == [] then []
    else if line[0] == ' ' then Tokens(line[1..])
    else
      var n := Leading(line);
      [line[..n]] + Tokens(line[n..])
  }

  /** The tokens of a space-free string: itself, or none when empty. */
  lemma TokensOfWord(t: string)
    requires Lacks(t, ' ')
    ensures Tokens(t) == if t == [] then [] else [t]
  {
    if t != [] {
      LeadingOfWord(t);
      assert t[..|t|] == t && t[|t|..] == [];
    }
  }

  lemma {:induction false} LeadingOfWord(t: string)
    requires Lacks(t, ' ')
    ensures Leading(t) == |t|
  {
    if t != [] && t[0] != ' ' {
      LeadingOfWord(t[1..]);
    }
  }

  /** A word followed by a space contributes the word and nothing else. */
  lemma TokensOfWordSpace(t: string)
    requires Lacks(t, ' ')
    ensures Tokens(t + " ") == if t == [] then [] else [t]
  {
    var line := t + " ";
    if t != [] {
      LeadingOfWordSpace(t);
      assert line[..|t|] == t;
      assert line[|t|..] == " ";
      assert Tokens(" ") == Tokens(""[..]) by { assert " "[1..] == ""; }
    } else {
      assert line[1..] == "";
    }
  }

  lemma {:induction false} LeadingOfWordSpace(t: string)
    requires Lacks(t, ' ')
    ensures Leading(t + " ") == |t|
  {
    if t != [] {
      assert (t + " ")[1..] == t[1..] + " ";
      LeadingOfWordSpace(t[1..]);
    }
  }

  /** Text that is empty or ends in a space splits independently of what follows. */
  lemma {:induction false} TokensAppend(a: string, b: string)
    requires a == [] || a[|a| - 1] == ' '
    ensures Tokens(a + b) == Tokens(a) + Tokens(b)
    decreases |a|
  {
    if a == [] {
      assert a + b == b;
    } else {
      if a[0] == ' ' {
        assert (a + b)[1..] == a[1..] + b;
        TokensAppend(a[1..], b);
      } else {
        var n := Leading(a);
        assert n < |a|;
        LeadingOfPrefix(a, b);
        assert (a + b)[..n] == a[..n];
        assert (a + b)[n..] == a[n..] + b;
        TokensAppend(a[n..], b);
      }
    }
  }

  lemma {:induction false} LeadingOfPrefix(a: string, b: string)
    requires Leading(a) < |a|
    ensures Leading(a + b) == Leading(a)
  {
    if a[0] != ' ' {
      assert (a + b)[1..] == a[1..] + b;
      LeadingOfPrefix(a[1..], b);
    }
  }

  /** Words separated by single spaces. */
  function Joined(ts: seq<string>): (s: string)
  {
    if |ts| == 0 then [] else if |ts| == 1 then ts[0] else ts[0] + " " + Joined(ts[1..])
  }

  predicate Word(t: string)
  {
    t != [] && Lacks(t, ' ') && Lacks(t, '\r') && Lacks(t, '\n')
  }

  /** Splitting words joined by single spaces gives the words back. */
  lemma {:induction false} TokensOfJoined(ts: seq<string>)
    requires forall i :: 0 <= i < |ts| ==> Word(ts[i])
    ensures Tokens(Joined(ts)) == ts
  {
    if |ts| == 1 {
      TokensOfWord(ts[0]);
    } else if |ts| > 1 {
      var rest := Joined(ts[1..]);
      assert Joined(ts) == (ts[0] + " ") + rest;
      TokensAppend(ts[0] + " ", rest);
      TokensOfWordSpace(ts[0]);
      TokensOfJoined(ts[1..]);
    }
  }

  lemma {:induction false} JoinedLength(ts: seq<string>)
    requires forall i :: 0 <= i < |ts| ==> ts[i] != []
    ensures |ts| > 0 ==> |Joined(ts)| >= 2 * |ts| - 1
  {
    if |ts| > 1 {
      JoinedLength(ts[1..]);
    }
  }

  /** Words joined by spaces contain no line break. */
  lemma {:induction false} JoinedLacks(ts: seq<string>, c: char)
    requires c != ' ' && forall i :: 0 <= i < |ts| ==> Lacks(ts[i], c)
    ensures Lacks(Joined(ts), c)
  {
    if |ts| > 1 {
      JoinedLacks(ts[1..], c);
    }
  }

  /** The first at most ten tokens: the parser keeps no more. */
  function FirstTen(ts: seq<string>): (r: seq<string>)
    ensures |r| == 6 <==> |ts| == 6
    ensures |ts| <= 10 ==> r == ts
  {
    if |ts| <= 10 then ts else ts[..10]
  }

  // ------------------------------------------------------------ numbers

  /** 2^63: int64 holds -2^63 up to 2^63 - 1. */
  const Int64Limit: nat := 0x8000_0000_0000_0000


  /** `from_chars` into int64, as the `Timestamp` line is read: an optional minus, then decimal digits. */
  function ParseInt64(s: string): (r: Option<int>)
    ensures r.Some? ==> -(Int64Limit as int) <= r.value < Int64Limit
  {
    if 2 <= |s| <= 20 && s[0] == '-' && AllDigits(s[1..]) && DigitsValue(s[1..]) <= Int64Limit then
      Some(-(DigitsValue(s[1..]) as int))
    else if 1 <= |s| <= 20 && AllDigits(s) && DigitsValue(s) < Int64Limit then Some(DigitsValue(s))
    else None
  }

  /** A non-negative int64 prints as digits and reads back. */
  lemma ParseInt64OfString(n: nat)
    requires n < Int64Limit
    ensures ParseInt64(IntToString(n)) == Some(n)
  {
    ParseUnsignedOfNatToString(n, Int64Limit);
    var s := NatToString(n);
    assert IsDigit(s[0]);
  }

  // ------------------------------------------------------------ header lines

  predicate IsBlank(c: char)
  {
    c == ' ' || c == '\t'
  }

  function TrimLeft(s: string): (r: string)
    ensures |r| <= |s|
    ensures r != [] ==> !IsBlank(r[0])
  {
    if s != [] && IsBlank(s[0]) then TrimLeft(s[1..]) else s
  }

  function TrimRight(s: string): (r: string)
    ensures |r| <= |s|
    ensures r != [] ==> !IsBlank(r[|r| - 1])
  {
    if s != [] && IsBlank(s[|s| - 1]) then TrimRight(s[..|s| - 1]) else s
  }

  /** The trim of `safe_trim`: spaces and tabs dropped at both ends. */
  function Trim(s: string): (r: string)
  {
    TrimRight(TrimLeft(s))
  }

  predicate Trimmed(s: string)
  {
    s != [] ==> !IsBlank(s[0]) && !IsBlank(s[|s| - 1])
  }

  /** Trimming leaves text without blanks at its ends alone, and strips the space after a colon. */
  lemma TrimOfTrimmed(s: string)
    requires Trimmed(s)
    ensures Trim(s) == s
    ensures Trim(" " + s) == s
  {
    assert (" " + s)[1..] == s;
  }

  /** The fields the header-line loop collects before they are committed. */
  datatype Extras = Extras(special: string, timestamp: int, headers: map<string, string>)

  const NoExtras: Extras := Extras("", 0, map[])

  /**
   * A trimmed key and value: the special key (`User-Agent` or `Server`) and
   * `Timestamp` go to their own fields; a timestamp that does not parse is
   * ignored, one that is negative or more than a day after `now` rejects the
   * header. Every other key goes to the map, of which at most 90 fit.
   */
  function Store(k: string, v: string, acc: Extras, special: string, now: int): (r: Result<Extras>)
    ensures r.Ok? ==> 1 <= |k| <= MaxKey && |v| <= MaxValue
    ensures r.Ok? ==> r.value.timestamp == acc.timestamp || 0 <= r.value.timestamp <= now + OneDay
    ensures r.Ok? ==> r.value.headers.Keys <= acc.headers.Keys + {k}
  {
    if k == [] || |k| > MaxKey || |v| > MaxValue then Fail("bad header")
    else if k == special then
      if |v| > MaxSpecial then Fail("special header too long") else Ok(acc.(special := v))
    else if k == "Timestamp" then
      match ParseInt64(v)
      case None => Ok(acc)
      case Some(ts) =>
        if ts < 0 || ts > now + OneDay then Fail("timestamp out of range") else Ok(acc.(timestamp := ts))
    else if |acc.headers| >= MaxOrdinary then Fail("too many headers")
    else Ok(acc.(headers := acc.headers[k := v]))
  }

  /**
   * One line of the loop: a line without a colon, or with its first colon
   * first or last, is skipped; otherwise both sides are trimmed and stored.
   */
  function LineStep(line: string, acc: Extras, special: string, now: int): (r: Result<Extras>)
    ensures (forall i :: 0 <= i < |line| ==> line[i] != ':') ==> r == Ok(acc)
    ensures |line| > 0 && line[0] == ':' ==> r == Ok(acc)
  {
    match IndexOf(line, ':')
    case None => Ok(acc)
    case Some(colon) =>
      if colon == 0 || colon >= |line| - 1 then Ok(acc)
      else if colon > MaxLine || |line| - colon - 1 > MaxLine then Fail("trim")
      else Store(Trim(line[..colon]), Trim(line[colon + 1..]), acc, special, now)
  }

  /** A line reader: what the loop does with one non-empty line. */
  type Reader = (string, Extras) -> Result<Extras>

  /** The reader both header parsers use, for their special key and the current time. */
  function ReaderFor(special: string, now: int): (read: Reader)
    ensures forall l, acc :: read(l, acc) == LineStep(l, acc, special, now)
  {
    (l: string, acc: Extras) => LineStep(l, acc, special, now)
  }

  /**
   * The header loop from pos, with count lines read so far: it stops at the
   * end of the data, after 100 lines, at a missing line end or at an empty
   * line, and rejects a line longer than 8192.
   */
  function HeaderLines(data: string, pos: nat, count: nat, acc: Extras, read: Reader): (r: Result<Extras>)
    decreases |data| - pos
  {
    if pos >= |data| || count >= MaxLines then Ok(acc)
    else match FindCrlf(data, pos)
      case None => Ok(acc)
      case Some(next) =>
        if next - pos > MaxLine then Fail("line too long")
        else if next == pos then Ok(acc)
        else match read(data[pos..next], acc)
          case Fail(e) => Fail(e)
          case Ok(acc') => HeaderLines(data, next + 2, count + 1, acc', read)
  }

  // ------------------------------------------------------------ rendered lines

  /** Text without a line break. */
  predicate Clean(l: string)
  {
    Lacks(l, '\r') && Lacks(l, '\n')
  }

  /** Lines as `to_string` writes them: non-empty, no line breaks, at most 8192 long. */
  predicate GoodLines(ls: seq<string>)
  {
    ls == [] || (ls[0] != [] && Clean(ls[0]) && |ls[0]| <= MaxLine && GoodLines(ls[1..]))
  }

  /** Each line followed by a CRLF. */
  function LinesText(ls: seq<string>): (s: string)
  {
    if ls == [] then [] else ls[0] + "\r\n" + LinesText(ls[1..])
  }

  /** The reader over each line in turn, stopping at the first rejection. */
  function Steps(ls: seq<string>, acc: Extras, read: Reader): (r: Result<Extras>)
  {
    if ls == [] then Ok(acc)
    else match read(ls[0], acc)
      case Fail(e) => Fail(e)
      case Ok(acc') => Steps(ls[1..], acc', read)
  }

  lemma {:induction false} StepsAppend(a: seq<string>, b: seq<string>, acc: Extras, read: Reader)
    ensures Steps(a + b, acc, read) ==
      match Steps(a, acc, read)
      case Fail(e) => Fail(e)
      case Ok(acc') => Steps(b, acc', read)
  {
    if a == [] {
      assert a + b == b;
    } else {
      assert (a + b)[0] == a[0] && (a + b)[1..] == a[1..] + b;
      match read(a[0], acc)
      case Fail(e) =>
      case Ok(acc') => StepsAppend(a[1..], b, acc', read);
    }
  }

  /** The header loop keeps every invariant of the accumulated fields that each line's reading keeps. */
  lemma {:induction false} HeaderLinesKeeps(data: string, pos: nat, count: nat, acc: Extras, read: Reader, inv: Extras -> bool)
    requires inv(acc)
    requires forall l, a :: inv(a) && read(l, a).Ok? ==> inv(read(l, a).value)
    ensures HeaderLines(data, pos, count, acc, read).Ok? ==> inv(HeaderLines(data, pos, count, acc, read).value)
    decreases |data| - pos
  {
    if pos < |data| && count < MaxLines {
      match FindCrlf(data, pos)
      case None =>
      case Some(next) =>
        if next - pos <= MaxLine && next != pos {
          var r := read(data[pos..next], acc);
          if r.Ok? {
            HeaderLinesKeeps(data, next + 2, count + 1, r.value, read, inv);
          }
        }
    }
  }

  /** The line end found from a line's start is the one right after it. */
  lemma FindCrlfAfter(s: string, from: nat, line: string)
    requires from + |line| + 2 <= |s| && s[from..from + |line| + 2] == line + "\r\n" && Clean(line)
    ensures FindCrlf(s, from) == Some(from + |line|)
  {
    assert CrlfAt(s, from + |line|);
    forall j | from <= j < from + |line|
      ensures !CrlfAt(s, j)
    {
      assert s[j] == line[j - from];
    }
  }

  /** One non-empty line of at most 8192 characters: the loop hands it to LineStep and goes on after it. */
  lemma HeaderLinesStep(data: string, pos: nat, count: nat, acc: Extras, read: Reader, l: string)
    requires pos + |l| + 2 <= |data| && data[pos..pos + |l| + 2] == l + "\r\n"
    requires l != [] && Clean(l) && |l| <= MaxLine && count < MaxLines
    ensures read(l, acc).Fail? ==> HeaderLines(data, pos, count, acc, read) == read(l, acc)
    ensures read(l, acc).Ok? ==> HeaderLines(data, pos, count, acc, read) == HeaderLines(data, pos + |l| + 2, count + 1, read(l, acc).value, read)
  {
    FindCrlfAfter(data, pos, l);
    assert data[pos..pos + |l|] == data[pos..pos + |l| + 2][..|l|] == (l + "\r\n")[..|l|] == l;
  }

  lemma SplitFirstLine(data: string, pos: nat, ls: seq<string>)
    requires ls != [] && pos <= |data| && data[pos..] == LinesText(ls)
    ensures pos + |ls[0]| + 2 <= |data|
    ensures data[pos..pos + |ls[0]| + 2] == ls[0] + "\r\n"
    ensures data[pos + |ls[0]| + 2..] == LinesText(ls[1..])
  {
    var l := ls[0];
    assert data[pos..][..|l| + 2] == l + "\r\n";
    assert data[pos..pos + |l| + 2] == data[pos..][..|l| + 2];
    assert data[pos + |l| + 2..] == data[pos..][|l| + 2..];
  }

  lemma StepsCons(ls: seq<string>, acc: Extras, read: Reader)
    requires ls != []
    ensures read(ls[0], acc).Fail? ==> Steps(ls, acc, read) == read(ls[0], acc)
    ensures read(ls[0], acc).Ok? ==> Steps(ls, acc, read) == Steps(ls[1..], read(ls[0], acc).value, read)
  {
  }

  /**
   * Read over data that consists of rendered lines, each non-empty, free of
   * line breaks and at most 8192 long, and no more than the 100-line bound,
   * the header loop is the reader applied line after line.
   */
  lemma {:induction false} HeaderLinesOfText(data: string, pos: nat, count: nat, acc: Extras, read: Reader, ls: seq<string>)
    requires pos <= |data| && data[pos..] == LinesText(ls)
    requires GoodLines(ls) && count + |ls| <= MaxLines
    ensures HeaderLines(data, pos, count, acc, read) == Steps(ls, acc, read)
    decreases ls
  {
    if ls == [] {
      HeaderLinesAtEnd(data, pos, count, acc, read);
    } else {
      SplitFirstLine(data, pos, ls);
      var first, next, rest := read(ls[0], acc), pos + |ls[0]| + 2, ls[1..];
      if first.Ok? {
        HeaderLinesOfText(data, next, count + 1, first.value, read, rest);
      }
      HeaderLinesCons(data, pos, count, acc, read, ls, first, next);
    }
  }

  /** Nothing is left to read at the end of the data. */
  lemma HeaderLinesAtEnd(data: string, pos: nat, count: nat, acc: Extras, read: Reader)
    requires pos <= |data| && data[pos..] == []
    ensures HeaderLines(data, pos, count, acc, read) == Ok(acc)
  {
    assert |data[pos..]| == 0;
  }

  /**
   * The first of the rendered lines: the loop and the reader agree on it, so
   * they agree on all the lines once they agree on the rest.
   */
  lemma HeaderLinesCons(data: string, pos: nat, count: nat, acc: Extras, read: Reader, ls: seq<string>,
                         first: Result<Extras>, next: nat)
    requires ls != [] && next == pos + |ls[0]| + 2 <= |data| && data[pos..next] == ls[0] + "\r\n"
    requires GoodLines(ls) && count < MaxLines && first == read(ls[0], acc)
    requires first.Ok? ==> HeaderLines(data, next, count + 1, first.value, read) == Steps(ls[1..], first.value, read)
    ensures HeaderLines(data, pos, count, acc, read) == Steps(ls, acc, read)
  {
    HeaderLinesStep(data, pos, count, acc, read, ls[0]);
    StepsCons(ls, acc, read);
  }

  /** A `key: value` line, as `to_string` writes each header. */
  function LineOf(k: string, v: string): (l: string)
    ensures |l| == |k| + 2 + |v|
  {
    k + ": " + v
  }

  /** A key and value that a rendered line carries through parsing unchanged. */
  predicate GoodPair(k: string, v: string)
  {
    k != [] && |k| <= MaxKey && Lacks(k, ':') && Trimmed(k) && Clean(k) &&
    Trimmed(v) && Clean(v) && |k| + 2 + |v| <= MaxLine
  }

  lemma IndexOfAt(s: string, c: char, at: nat)
    requires at < |s| && s[at] == c && forall j :: 0 <= j < at ==> s[j] != c
    ensures IndexOf(s, c) == Some(at)
  {
    var r := IndexOf(s, c);
    if r.Some? && r.value > at {
    }
  }

  /** Reading a rendered `key: value` line stores the key and value themselves. */
  lemma LineStepOfPair(k: string, v: string, acc: Extras, special: string, now: int)
    requires GoodPair(k, v)
    ensures LineStep(LineOf(k, v), acc, special, now) == Store(k, v, acc, special, now)
  {
    var l := LineOf(k, v);
    assert l[|k|] == ':';
    IndexOfAt(l, ':', |k|);
    assert l[..|k|] == k;
    assert l[|k| + 1..] == " " + v;
    TrimOfTrimmed(k);
    TrimOfTrimmed(v);
  }

  lemma LineOfClean(k: string, v: string)
    requires Clean(k) && Clean(v)
    ensures LineOf(k, v) != [] && Clean(LineOf(k, v))
  {
    var l := LineOf(k, v);
    forall i | 0 <= i < |l|
      ensures l[i] != '\r' && l[i] != '\n'
    {
      if i < |k| { assert l[i] == k[i]; }
      else if i >= |k| + 2 { assert l[i] == v[i - |k| - 2]; }
    }
  }

  // ------------------------------------------------------------ ordinary headers

  /** The lines for a list of key/value pairs. */
  function PairLines(ps: seq<(string, string)>): (ls: seq<string>)
    ensures |ls| == |ps|
    ensures forall i :: 0 <= i < |ps| ==> ls[i] == LineOf(ps[i].0, ps[i].1)
  {
    if ps == [] then [] else [LineOf(ps[0].0, ps[0].1)] + PairLines(ps[1..])
  }

  /** The map after storing each pair in turn. */
  function Inserted(m: map<string, string>, ps: seq<(string, string)>): (r: map<string, string>)
    decreases |ps|
  {
    if ps == [] then m else Inserted(m[ps[0].0 := ps[0].1], ps[1..])
  }

  lemma {:induction false} InsertedSize(m: map<string, string>, ps: seq<(string, string)>)
    ensures |Inserted(m, ps)| <= |m| + |ps|
    decreases |ps|
  {
    if ps != [] {
      var m' := m[ps[0].0 := ps[0].1];
      assert |m'| <= |m| + 1;
      InsertedSize(m', ps[1..]);
    }
  }

  /** An ordinary header: a good pair whose key is neither the special key nor Timestamp. */
  predicate Ordinary(k: string, v: string, special: string)
  {
    GoodPair(k, v) && k != special && k != "Timestamp"
  }

  /** Ordinary header lines, up to the 90 the map may hold, are all stored. */
  lemma {:induction false} StepsOfOrdinary(ps: seq<(string, string)>, acc: Extras, special: string, now: int)
    requires forall i :: 0 <= i < |ps| ==> Ordinary(ps[i].0, ps[i].1, special)
    requires |acc.headers| + |ps| <= MaxOrdinary
    ensures Steps(PairLines(ps), acc, ReaderFor(special, now)) == Ok(acc.(headers := Inserted(acc.headers, ps)))
  {
    if ps != [] {
      var (k, v) := ps[0];
      LineStepOfPair(k, v, acc, special, now);
      var acc' := acc.(headers := acc.headers[k := v]);
      assert |acc'.headers| <= |acc.headers| + 1;
      assert PairLines(ps)[1..] == PairLines(ps[1..]);
      StepsOfOrdinary(ps[1..], acc', special, now);
    }
  }

  /** The entries of h under the given keys, in that order. */
  function Entries(ks: seq<string>, h: map<string, string>): (ps: seq<(string, string)>)
    requires forall i :: 0 <= i < |ks| ==> ks[i] in h
    ensures |ps| == |ks|
    ensures forall i :: 0 <= i < |ks| ==> ps[i] == (ks[i], h[ks[i]])
  {
    if ks == [] then [] else [(ks[0], h[ks[0]])] + Entries(ks[1..], h)
  }

  /** Storing h's entries under all of its keys, into an empty map, rebuilds h. */
  lemma {:induction false} InsertedEntries(m: map<string, string>, ks: seq<string>, h: map<string, string>)
    requires forall i :: 0 <= i < |ks| ==> ks[i] in h
    requires forall k :: k in m ==> k in h && m[k] == h[k]
    ensures forall k :: k in Inserted(m, Entries(ks, h)) <==> k in m || k in ks
    ensures forall k :: k in Inserted(m, Entries(ks, h)) ==> Inserted(m, Entries(ks, h))[k] == h[k]
    decreases |ks|
  {
    if ks != [] {
      var m' := m[ks[0] := h[ks[0]]];
      assert Entries(ks, h)[1..] == Entries(ks[1..], h);
      InsertedEntries(m', ks[1..], h);
      forall k ensures k in m || k in ks <==> k in m' || k in ks[1..] {
        if k in ks && k != ks[0] {
          var i :| 0 <= i < |ks| && ks[i] == k;
          assert ks[1..][i - 1] == k;
        }
      }
    }
  }

  // ------------------------------------------------------------ key order

  /** `std::string`'s `operator<`: byte-wise, unsigned, a proper prefix first. */
  predicate StdLess(a: string, b: string)
  {
    if b == [] then false
    else if a == [] then true
    else if a[0] != b[0] then a[0] < b[0]
    else StdLess(a[1..], b[1..])
  }

  lemma {:induction false} StdLessIrreflexive(a: string)
    ensures !StdLess(a, a)
  {
    if a != [] {
      StdLessIrreflexive(a[1..]);
    }
  }

  lemma {:induction false} StdLessTransitive(a: string, b: string, c: string)
    requires StdLess(a, b) && StdLess(b, c)
    ensures StdLess(a, c)
  {
    if a != [] && a[0] == b[0] && b[0] == c[0] {
      StdLessTransitive(a[1..], b[1..], c[1..]);
    }
  }

  lemma {:induction false} StdLessTotal(a: string, b: string)
    requires a != b
    ensures StdLess(a, b) || StdLess(b, a)
  {
    if a != [] && b != [] && a[0] == b[0] {
      assert a == [a[0]] + a[1..] && b == [b[0]] + b[1..];
      StdLessTotal(a[1..], b[1..]);
    }
  }

  predicate IsLeast(m: string, s: set<string>)
  {
    m in s && forall j :: j in s ==> !StdLess(j, m)
  }

  lemma {:induction false} LeastExists(s: set<string>)
    requires s != {}
    ensures exists m :: IsLeast(m, s)
    decreases |s|
  {
    var x :| x in s;
    if s - {x} == {} {
      assert s == {x};
      StdLessIrreflexive(x);
      assert IsLeast(x, s);
    } else {
      LeastExists(s - {x});
      var m :| IsLeast(m, s - {x});
      if StdLess(x, m) {
        forall j | j in s
          ensures !StdLess(j, x)
        {
          if j == x {
            StdLessIrreflexive(x);
          } else if StdLess(j, x) {
            StdLessTransitive(j, x, m);
          }
        }
        assert IsLeast(x, s);
      } else {
        assert IsLeast(m, s);
      }
    }
  }

  lemma LeastUnique(a: string, b: string, s: set<string>)
    requires IsLeast(a, s) && IsLeast(b, s)
    ensures a == b
  {
    if a != b {
      StdLessTotal(a, b);
    }
  }

  /** The keys of a set in ascending `std::string` order, as `std::sort` leaves them. */
  ghost function SortedKeys(s: set<string>): (r: seq<string>)
    ensures |r| == |s|
    ensures forall k :: k in r <==> k in s
    ensures forall i, j :: 0 <= i < j < |r| ==> StdLess(r[i], r[j])
    decreases |s|
  {
    if s == {} then []
    else
      LeastExists(s);
      var m :| IsLeast(m, s);
      var rest := SortedKeys(s - {m});
      assert forall j :: 0 <= j < |rest| ==> StdLess(m, rest[j]) by {
        forall j | 0 <= j < |rest|
          ensures StdLess(m, rest[j])
        {
          assert rest[j] in s - {m};
          StdLessTotal(m, rest[j]);
        }
      }
      [m] + rest
  }

  /** The sorted order starts with the least key and goes on with the rest. */
  lemma SortedKeysOfLeast(m: string, s: set<string>)
    requires IsLeast(m, s)
    ensures SortedKeys(s) == [m] + SortedKeys(s - {m})
  {
    LeastExists(s);
    var m' :| IsLeast(m', s);
    LeastUnique(m, m', s);
  }

  // ------------------------------------------------------------ the blank line

  lemma BlankAtShift(s: string, d: nat, j: nat)
    requires d <= |s|
    ensures BlankAt(s, d + j) <==> BlankAt(s[d..], j)
  {
  }

  /** Non-empty lines without line breaks hold no empty line before the last line end. */
  lemma {:induction false} NoBlankInLines(ls: seq<string>, rest: string, j: nat)
    requires forall i :: 0 <= i < |ls| ==> ls[i] != [] && Clean(ls[i])
    requires j + 2 < |LinesText(ls)|
    ensures !BlankAt(LinesText(ls) + rest, j)
    decreases ls
  {
    var l := ls[0];
    var tail := LinesText(ls[1..]) + rest;
    var s := LinesText(ls) + rest;
    assert s == l + "\r\n" + tail;
    if j < |l| {
      assert s[j] == l[j];
    } else if j == |l| {
      assert ls[1..] != [];
      assert s[j + 2] == ls[1][0];
    } else if j > |l| + 1 {
      var d := |l| + 2;
      assert s[d..] == tail;
      BlankAtShift(s, d, j - d);
      NoBlankInLines(ls[1..], rest, j - d);
    }
  }

  lemma {:induction false} LinesTextEnds(ls: seq<string>)
    requires ls != []
    ensures |LinesText(ls)| >= 2 && LinesText(ls)[|LinesText(ls)| - 2..] == "\r\n"
  {
    if ls[1..] != [] {
      LinesTextEnds(ls[1..]);
    }
  }

  /** The first empty line of a header block followed by anything is the one that ends the block. */
  lemma {:induction false} GoodLinesEach(ls: seq<string>)
    requires GoodLines(ls)
    ensures forall i :: 0 <= i < |ls| ==> ls[i] != [] && Clean(ls[i])
  {
    if ls != [] {
      GoodLinesEach(ls[1..]);
      assert forall i :: 1 <= i < |ls| ==> ls[i] == ls[1..][i - 1];
    }
  }

  lemma FindBlankOfLines(ls: seq<string>, rest: string)
    requires ls != [] && forall i :: 0 <= i < |ls| ==> ls[i] != [] && Clean(ls[i])
    ensures FindBlank(LinesText(ls) + "\r\n" + rest, 0) == Some(|LinesText(ls)| - 2)
  {
    var t := LinesText(ls);
    var s := t + "\r\n" + rest;
    LinesTextEnds(ls);
    assert s[|t| - 2..|t| + 2] == "\r\n\r\n";
    assert BlankAt(s, |t| - 2);
    forall j: nat | j < |t| - 2
      ensures !BlankAt(s, j)
    {
      assert s == t + ("\r\n" + rest);
      NoBlankInLines(ls, "\r\n" + rest, j);
    }
  }

  // ------------------------------------------------------------ the header block

  lemma {:induction false} LinesTextAppend(a: seq<string>, b: seq<string>)
    ensures LinesText(a + b) == LinesText(a) + LinesText(b)
  {
    if a == [] {
      assert a + b == b;
    } else {
      assert (a + b)[0] == a[0] && (a + b)[1..] == a[1..] + b;
      LinesTextAppend(a[1..], b);
    }
  }

  lemma {:induction false} GoodLinesAppend(a: seq<string>, b: seq<string>)
    requires GoodLines(a) && GoodLines(b)
    ensures GoodLines(a + b)
  {
    if a == [] {
      assert a + b == b;
    } else {
      assert (a + b)[0] == a[0] && (a + b)[1..] == a[1..] + b;
      GoodLinesAppend(a[1..], b);
    }
  }

  lemma GoodLineOfPair(k: string, v: string)
    requires GoodPair(k, v)
    ensures GoodLines([LineOf(k, v)])
  {
    LineOfClean(k, v);
    assert [LineOf(k, v)][1..] == [];
  }

  lemma {:induction false} GoodLinesOfPairs(ps: seq<(string, string)>)
    requires forall i :: 0 <= i < |ps| ==> GoodPair(ps[i].0, ps[i].1)
    ensures GoodLines(PairLines(ps))
  {
    if ps != [] {
      GoodLineOfPair(ps[0].0, ps[0].1);
      GoodLinesOfPairs(ps[1..]);
      assert PairLines(ps) == [LineOf(ps[0].0, ps[0].1)] + PairLines(ps[1..]);
      GoodLinesAppend([LineOf(ps[0].0, ps[0].1)], PairLines(ps[1..]));
    }
  }

  /** The `key: value` lines of a header map, sorted by key. */
  ghost function MapLines(h: map<string, string>): (ls: seq<string>)
    ensures |ls| == |h|
  {
    var ks := SortedKeys(h.Keys);
    PairLines(Entries(ks, h))
  }

  /**
   * What `to_string` writes after the first line, line by line: the special
   * line (`User-Agent` or `Server`) when its value is non-empty, then
   * `Timestamp` in milliseconds, then the header map in key order.
   */
  ghost function TailLines(special: string, value: string, timestamp: int, h: map<string, string>): (ls: seq<string>)
  {
    (if value == [] then [] else [LineOf(special, value)]) + [LineOf("Timestamp", IntToString(timestamp))] + MapLines(h)
  }

  predicate SpecialKey(special: string)
  {
    special == "User-Agent" || special == "Server"
  }

  /**
   * A special value, timestamp and header map that the parser reads back as
   * written: the value and every header trimmed and free of line breaks
   * within the length limits, keys without a colon and distinct from the
   * special key and Timestamp, at most 90 headers, and a timestamp between 0
   * and a day after the reader's clock.
   */
  predicate TailWellFormed(special: string, value: string, timestamp: int, h: map<string, string>, now: int)
  {
    Trimmed(value) && Clean(value) && |value| <= MaxSpecial &&
    0 <= timestamp <= now + OneDay && timestamp < Int64Limit &&
    |h| <= MaxOrdinary && forall k :: k in h ==> Ordinary(k, h[k], special)
  }

  lemma TimestampKey()
    ensures Lacks("Timestamp", ':') && Trimmed("Timestamp") && Clean("Timestamp")
  {
  }

  lemma DigitsClean(v: string)
    requires AllDigits(v) && v != []
    ensures Trimmed(v) && Clean(v)
  {
    assert IsDigit(v[0]) && IsDigit(v[|v| - 1]);
  }

  lemma TimestampPair(ts: nat)
    requires ts < Int64Limit
    ensures GoodPair("Timestamp", IntToString(ts))
  {
    Pow10Of20();
    NatToStringLength(ts, 20);
    TimestampKey();
    DigitsClean(IntToString(ts));
  }

  lemma OrdinaryEntries(h: map<string, string>, special: string)
    requires forall k :: k in h ==> Ordinary(k, h[k], special)
    ensures forall i :: 0 <= i < |Entries(SortedKeys(h.Keys), h)| ==>
      Ordinary(Entries(SortedKeys(h.Keys), h)[i].0, Entries(SortedKeys(h.Keys), h)[i].1, special)
  {
  }

  /** The lines after the first are well formed and at most 92, within the 100 the loop reads. */
  lemma TailLinesGood(special: string, value: string, timestamp: int, h: map<string, string>, now: int)
    requires SpecialKey(special) && TailWellFormed(special, value, timestamp, h, now)
    ensures GoodLines(TailLines(special, value, timestamp, h))
    ensures |TailLines(special, value, timestamp, h)| <= MaxOrdinary + 2
  {
    var sp: seq<string> := if value == [] then [] else [LineOf(special, value)];
    var tl := [LineOf("Timestamp", IntToString(timestamp))];
    if value != [] {
      GoodLineOfPair(special, value);
    }
    TimestampPair(timestamp);
    GoodLineOfPair("Timestamp", IntToString(timestamp));
    MapLinesGood(h, special);
    GoodLinesAppend(sp, tl);
    GoodLinesAppend(sp + tl, MapLines(h));
  }

  lemma MapLinesGood(h: map<string, string>, special: string)
    requires forall k :: k in h ==> Ordinary(k, h[k], special)
    ensures GoodLines(MapLines(h))
  {
    OrdinaryEntries(h, special);
    GoodLinesOfPairs(Entries(SortedKeys(h.Keys), h));
  }


  lemma SpecialStep(special: string, value: string, now: int)
    requires SpecialKey(special) && Trimmed(value) && Clean(value) && |value| <= MaxSpecial
    ensures Steps(if value == [] then [] else [LineOf(special, value)], NoExtras, ReaderFor(special, now)) == Ok(Extras(value, 0, map[]))
  {
    if value != [] {
      LineStepOfPair(special, value, NoExtras, special, now);
      assert [LineOf(special, value)][1..] == [];
    }
  }

  lemma TimestampStep(special: string, value: string, timestamp: nat, now: int)
    requires SpecialKey(special) && timestamp <= now + OneDay && timestamp < Int64Limit
    ensures Steps([LineOf("Timestamp", IntToString(timestamp))], Extras(value, 0, map[]), ReaderFor(special, now))
      == Ok(Extras(value, timestamp, map[]))
  {
    TimestampPair(timestamp);
    ParseInt64OfString(timestamp);
    LineStepOfPair("Timestamp", IntToString(timestamp), Extras(value, 0, map[]), special, now);
    assert [LineOf("Timestamp", IntToString(timestamp))][1..] == [];
  }

  lemma MapStep(special: string, value: string, timestamp: int, h: map<string, string>, now: int)
    requires |h| <= MaxOrdinary && forall k :: k in h ==> Ordinary(k, h[k], special)
    ensures Steps(MapLines(h), Extras(value, timestamp, map[]), ReaderFor(special, now)) == Ok(Extras(value, timestamp, h))
  {
    var ps := Entries(SortedKeys(h.Keys), h);
    OrdinaryEntries(h, special);
    StepsOfOrdinary(ps, Extras(value, timestamp, map[]), special, now);
    InsertedAllEntries(h);
  }

  /** Storing every entry of h, in key order, into an empty map rebuilds h. */
  lemma InsertedAllEntries(h: map<string, string>)
    ensures Inserted(map[], Entries(SortedKeys(h.Keys), h)) == h
  {
    InsertedCover(SortedKeys(h.Keys), h);
  }

  /** Storing h's entries under a sequence that holds exactly its keys rebuilds h. */
  lemma InsertedCover(ks: seq<string>, h: map<string, string>)
    requires forall i :: 0 <= i < |ks| ==> ks[i] in h
    requires forall k :: k in h ==> k in ks
    ensures Inserted(map[], Entries(ks, h)) == h
  {
    InsertedEntries(map[], ks, h);
    var r := Inserted(map[], Entries(ks, h));
    forall k | k in h ensures k in r && r[k] == h[k] {
    }
    assert r.Keys == h.Keys;
  }

  /** Reading the lines after the first gives back the special value, the timestamp and the header map. */
  lemma TailRoundTrip(special: string, value: string, timestamp: int, h: map<string, string>, now: int)
    requires SpecialKey(special) && TailWellFormed(special, value, timestamp, h, now)
    ensures Steps(TailLines(special, value, timestamp, h), NoExtras, ReaderFor(special, now)) == Ok(Extras(value, timestamp, h))
  {
    var read := ReaderFor(special, now);
    var sp: seq<string> := if value == [] then [] else [LineOf(special, value)];
    var tl := [LineOf("Timestamp", IntToString(timestamp))];
    StepsAppend(sp + tl, MapLines(h), NoExtras, read);
    StepsAppend(sp, tl, NoExtras, read);
    SpecialStep(special, value, now);
    TimestampStep(special, value, timestamp, now);
    MapStep(special, value, timestamp, h, now);
  }
}
