/** The string functions of Go's `strings` and `strconv` packages that the parser calls. */
module Text {
  import opened Basics

  /** `strings.Split`, for one-character separators. */
  function Split(s: string, seps: set<char>): (parts: seq<string>)
    ensures |parts| >= 1
  {
    if s == [] then [""] else Prepend(s[0], Split(s[1..], seps), seps)
  }

  /** One more character in front: a separator starts a new part, any other one joins the first. */
  function Prepend(c: char, parts: seq<string>, seps: set<char>): (r: seq<string>)
    requires |parts| >= 1
    ensures |r| >= 1
  {
    if c in seps then [""] + parts else [[c] + parts[0]] + parts[1..]
  }

  function NonEmpty(parts: seq<string>): seq<string> {
    if parts == [] then []
    else if parts[0] == "" then NonEmpty(parts[1..])
    else [parts[0]] + NonEmpty(parts[1..])
  }

  /** `strings.FieldsFunc`: the maximal runs of characters outside `seps`. */
  function FieldsFunc(s: string, seps: set<char>): seq<string> { NonEmpty(Split(s, seps)) }

  const SPACES: set<char> := {
    '\t', '\n', '\U{0B}', '\U{0C}', '\r', ' ', '\U{85}', '\U{A0}', '\U{1680}',
    '\U{2000}', '\U{2001}', '\U{2002}', '\U{2003}', '\U{2004}', '\U{2005}', '\U{2006}',
    '\U{2007}', '\U{2008}', '\U{2009}', '\U{200A}', '\U{2028}', '\U{2029}', '\U{202F}',
    '\U{205F}', '\U{3000}'
  }

  /** The characters whose lower case is an ASCII letter: A to Z, dotted capital I and the Kelvin sign. */
  function LowerChar(c: char): char {
    if 'A' <= c <= 'Z' then (c as int + 32) as char
    else if c == '\U{130}' then 'i'
    else if c == '\U{212A}' then 'k'
    else c
  }

  function ToLower(s: string): string {
    if s == [] then [] else [LowerChar(s[0])] + ToLower(s[1..])
  }

  predicate AllDigits(s: string) { forall i :: 0 <= i < |s| ==> '0' <= s[i] <= '9' }

  function Digit(c: char): nat
    requires '0' <= c <= '9'
  {
    c as int - '0' as int
  }

  function Digits(s: string): nat
    requires AllDigits(s)
  {
    if s == [] then 0 else Digits(s[..|s| - 1]) * 10 + Digit(s[|s| - 1])
  }

  const MAX_INT := 0x7FFF_FFFF_FFFF_FFFF

  /** `strconv.Atoi` on a 64-bit platform; `None` is its error. */
  function Atoi(s: string): (r: Option<int>)
    ensures r.Some? ==> -MAX_INT - 1 <= r.value <= MAX_INT
  {
    var negative := s != [] && s[0] == '-';
    var body := if s != [] && (s[0] == '-' || s[0] == '+') then s[1..] else s;
    if body == [] || !AllDigits(body) then None
    else
      var d: int := Digits(body);
      var n := if negative then -d else d;
      if -MAX_INT - 1 <= n <= MAX_INT then Some(n) else None
  }

  // ---------- laws ----------

  lemma {:induction false} SplitAppend(a: string, c: char, b: string, seps: set<char>)
    requires c in seps
    ensures Split(a + [c] + b, seps) == Split(a, seps) + Split(b, seps)
  {
    var s := a + [c] + b;
    if a == [] {
      assert s[1..] == b;
    } else {
      hide Prepend;
      assert s[1..] == a[1..] + [c] + b;
      SplitAppend(a[1..], c, b, seps);
      PrependAppend(a[0], Split(a[1..], seps), Split(b, seps), seps);
    }
  }

  lemma PrependAppend(c: char, x: seq<string>, y: seq<string>, seps: set<char>)
    requires |x| >= 1
    ensures Prepend(c, x + y, seps) == Prepend(c, x, seps) + y
  {
    assert (x + y)[1..] == x[1..] + y;
  }

  lemma {:induction false} SplitWhole(s: string, seps: set<char>)
    requires forall c :: c in s ==> c !in seps
    ensures Split(s, seps) == [s]
  {
    if s != [] {
      assert forall c :: c in s[1..] ==> c in s;
      SplitWhole(s[1..], seps);
      assert s[0] in s && [s[0]] + s[1..] == s;
    }
  }

  lemma {:induction false} NonEmptyAppend(a: seq<string>, b: seq<string>)
    ensures NonEmpty(a + b) == NonEmpty(a) + NonEmpty(b)
  {
    if a == [] {
      assert a + b == b;
    } else {
      assert (a + b)[1..] == a[1..] + b;
      NonEmptyAppend(a[1..], b);
    }
  }

  lemma FieldsFuncAppend(a: string, c: char, b: string, seps: set<char>)
    requires c in seps
    ensures FieldsFunc(a + [c] + b, seps) == FieldsFunc(a, seps) + FieldsFunc(b, seps)
  {
    SplitAppend(a, c, b, seps);
    NonEmptyAppend(Split(a, seps), Split(b, seps));
  }

  /** Fields with a blank between any two. */
  function Joined(fields: seq<string>): string {
    if fields == [] then ""
    else if |fields| == 1 then fields[0]
    else Joined(fields[..|fields| - 1]) + " " + fields[|fields| - 1]
  }

  predicate IsWord(s: string) { s != "" && forall c <- s :: c !in SPACES }

  /** Joining with blanks is undone by splitting at them. */
  lemma {:induction false} FieldsOfJoined(fields: seq<string>)
    requires forall k :: 0 <= k < |fields| ==> IsWord(fields[k])
    ensures FieldsFunc(Joined(fields), SPACES) == fields
  {
    if fields == [] {
      assert NonEmpty([""]) == NonEmpty([]);
    } else {
      var front, last := fields[..|fields| - 1], fields[|fields| - 1];
      assert FieldsFunc(last, SPACES) == [last] by {
        SplitWhole(last, SPACES);
        assert NonEmpty([last]) == [last] + NonEmpty([]);
      }
      if |fields| > 1 {
        hide FieldsFunc;
        FieldsOfJoined(front);
        FieldsFuncAppend(Joined(front), ' ', last, SPACES);
        assert Joined(fields) == Joined(front) + [' '] + last;
        assert ' ' in SPACES;
        assert fields == front + [last];
      }
    }
  }

  // ---------- decimal numerals ----------

  function Numeral(n: nat): (s: string)
    ensures s != [] && AllDigits(s) && Digits(s) == n
  {
    var last := ('0' as int + n % 10) as char;
    if n < 10 then [last]
    else
      var s := Numeral(n / 10) + [last];
      assert s[..|s| - 1] == Numeral(n / 10);
      s
  }

  lemma AtoiNumeral(n: nat)
    requires n <= MAX_INT
    ensures Atoi(Numeral(n)) == Some(n)
    ensures forall c :: c in Numeral(n) ==> '0' <= c <= '9'
  {}

  /** One or two digits read as a first and a second digit. */
  lemma TwoDigits(a: nat, b: nat)
    requires a <= 9 && b <= 9
    ensures Atoi([('0' as int + a) as char, ('0' as int + b) as char]) == Some(a * 10 + b)
    ensures Atoi([('0' as int + b) as char]) == Some(b)
  {
    var s := [('0' as int + a) as char, ('0' as int + b) as char];
    assert s[..1] == [s[0]] && s[..1][..0] == [];
    assert Digits(s[..1]) == a;
    var t := [('0' as int + b) as char];
    assert t[..0] == [];
  }

  /** Signs, and what does not fit into 64 bits. */
  lemma AtoiSigned(n: nat)
    ensures Atoi(Numeral(n)) == Atoi("+" + Numeral(n)) == if n <= MAX_INT then Some(n) else None
    ensures Atoi("-" + Numeral(n)) == if n <= MAX_INT + 1 then Some(0 - n as int) else None
  {
    hide Digits, Numeral;
    var s := Numeral(n);
    assert "-" + s == ['-'] + s && ("-" + s)[1..] == s;
    assert "+" + s == ['+'] + s && ("+" + s)[1..] == s;
    assert '0' <= s[0] <= '9';
  }

  /** Text with any character that is no digit, but for a sign in front, is no number; nor is a mere sign. */
  lemma AtoiRefuses(s: string, i: nat)
    requires s == "" || s == "-" || s == "+"
          || (i < |s| && !('0' <= s[i] <= '9') && (i == 0 ==> s[0] != '-' && s[0] != '+'))
    ensures Atoi(s) == None
  {
    if i < |s| && !('0' <= s[i] <= '9') && (i == 0 ==> s[0] != '-' && s[0] != '+') {
      var body := if s[0] == '-' || s[0] == '+' then s[1..] else s;
      var k := if s[0] == '-' || s[0] == '+' then i - 1 else i;
      assert body[k] == s[i];
    }
  }

  // ---------- lists of numbers ----------

  /** Numbers in decimal, with a comma between any two. */
  function Listed(ns: seq<nat>): string {
    if ns == [] then ""
    else if |ns| == 1 then Numeral(ns[0])
    else Listed(ns[..|ns| - 1]) + "," + Numeral(ns[|ns| - 1])
  }

  lemma {:induction false} SplitListed(ns: seq<nat>)
    requires ns != []
    ensures |Split(Listed(ns), {','})| == |ns|
    ensures forall i :: 0 <= i < |ns| ==> Split(Listed(ns), {','})[i] == Numeral(ns[i])
  {
    var front, last := ns[..|ns| - 1], ns[|ns| - 1];
    assert Split(Numeral(last), {','}) == [Numeral(last)] by {
      assert forall c <- Numeral(last) :: '0' <= c <= '9';
      SplitWhole(Numeral(last), {','});
    }
    if |ns| > 1 {
      SplitListed(front);
      SplitAppend(Listed(front), ',', Numeral(last), {','});
      assert Listed(ns) == Listed(front) + [','] + Numeral(last);
    }
  }
}
