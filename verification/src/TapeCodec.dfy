/**
 The tape attribute (lio_fuse_core.c:68-69, 1013-1092, 1149-1209): the backup form of a file's
 owner and exnode. The getter prints a text header with the number and sizes of the values and
 appends the values as raw bytes; the setter splits the header with string_token and copies the
 values out by size. One char stands for one C char.
 */
module TapeCodec {

  const KEYS: seq<string> := ["system.owner", "system.exnode"]
  const NUL: char := '\0'

  datatype Result<+T> = Ok(value: T) | Err(error: Error)

  datatype Error = MissingCount | WrongCount | MissingKey(index: nat) | BadSize(index: nat) | Overrun(index: nat)

  /** Lines 1034 and 1174: a symbolic link carries its owner only. */
  function KeyCount(symlink: bool): nat {
    if symlink then 1 else |KEYS|
  }

  // ---------------------------------------------------------------- numbers

  function Digit(d: nat): char
    requires d < 10
  {
    '0' + d as char
  }

  /** printf's "%d" of a number that is not negative. */
  function Decimal(n: nat): (s: string)
    ensures s != [] && forall i :: 0 <= i < |s| ==> IsDigit(s[i])
  {
    if n < 10 then [Digit(n)] else Decimal(n / 10) + [Digit(n % 10)]
  }

  predicate IsDigit(c: char) {
    '0' <= c <= '9'
  }

  /** The number that a run of digits adds to what has been read so far. */
  function Read(s: string, value: nat): nat {
    if s == [] || !IsDigit(s[0]) then value else Read(s[1..], 10 * value + (s[0] - '0') as nat)
  }

  predicate IsSpace(c: char) {
    c == ' ' || '\t' <= c <= '\r'
  }

  /** sscanf's "%d": leading space and a sign are allowed; without a digit the variable keeps `otherwise`. */
  function Scan(s: string, otherwise: int): int {
    if s == [] then otherwise
    else if IsSpace(s[0]) then Scan(s[1..], otherwise)
    else if s[0] == '-' then if |s| > 1 && IsDigit(s[1]) then -(Read(s[1..], 0) as int) else otherwise
    else if s[0] == '+' then if |s| > 1 && IsDigit(s[1]) then Read(s[1..], 0) else otherwise
    else if IsDigit(s[0]) then Read(s, 0)
    else otherwise
  }

  lemma {:induction false} ReadAppend(s: string, c: char, value: nat)
    requires IsDigit(c) && forall i :: 0 <= i < |s| ==> IsDigit(s[i])
    ensures Read(s + [c], value) == 10 * Read(s, value) + (c - '0') as nat
    decreases |s|
  {
    if s == [] {
      assert [c][1..] == [];
    } else {
      assert (s + [c])[1..] == s[1..] + [c];
      ReadAppend(s[1..], c, 10 * value + (s[0] - '0') as nat);
    }
  }

  lemma {:induction false} ReadDecimal(n: nat)
    ensures Read(Decimal(n), 0) == n
  {
    if n < 10 {
      assert [Digit(n)][1..] == [];
    } else {
      ReadDecimal(n / 10);
      ReadAppend(Decimal(n / 10), Digit(n % 10), 0);
    }
  }

  lemma ScanDecimal(n: nat, otherwise: int)
    ensures Scan(Decimal(n), otherwise) == n
  {
    ReadDecimal(n);
    assert IsDigit(Decimal(n)[0]);
  }

  // ---------------------------------------------------------------- tokens

  predicate IsDelimiter(c: char) {
    c == '=' || c == '\n'
  }

  /** Where the run of delimiters at the front of a C string ends. */
  function Skip(s: string): string {
    if s != [] && IsDelimiter(s[0]) then Skip(s[1..]) else s
  }

  /** The first token and what follows it, when no delimiter is in front. */
  function Cut(s: string): (string, string) {
    if s == [] || s[0] == NUL then ("", s)
    else if IsDelimiter(s[0]) then ("", s[1..])
    else
      var (token, rest) := Cut(s[1..]);
      ([s[0]] + token, rest)
  }

  /** string_token: the next token of a C string and the string from just after its delimiter. */
  function Token(s: string): (string, string) {
    Cut(Skip(s))
  }

  ghost predicate Word(s: string) {
    s != [] && forall i :: 0 <= i < |s| ==> s[i] != NUL && !IsDelimiter(s[i])
  }

  lemma {:induction false} CutWord(word: string, delimiter: char, rest: string)
    requires forall i :: 0 <= i < |word| ==> word[i] != NUL && !IsDelimiter(word[i])
    requires IsDelimiter(delimiter)
    ensures Cut(word + [delimiter] + rest) == (word, rest)
    decreases |word|
  {
    var s := word + [delimiter] + rest;
    if word == [] {
      assert s[1..] == rest;
    } else {
      assert s[1..] == word[1..] + [delimiter] + rest;
      CutWord(word[1..], delimiter, rest);
      assert [word[0]] + word[1..] == word;
    }
  }

  lemma TokenWord(word: string, delimiter: char, rest: string)
    requires Word(word) && IsDelimiter(delimiter)
    ensures Token(word + [delimiter] + rest) == (word, rest)
  {
    CutWord(word, delimiter, rest);
  }

  // ---------------------------------------------------------------- the two formats

  /** One line of the header. */
  function Line(key: string, n: nat): string {
    key + "=" + Decimal(n) + "\n"
  }

  /** The size lines of the values from the `i`-th on. */
  function SizeLines(values: seq<string>, i: nat): string
    requires i <= |values| <= |KEYS|
    decreases |values| - i
  {
    if i == |values| then "" else Line(KEYS[i], |values[i]|) + SizeLines(values, i + 1)
  }

  function Joined(values: seq<string>, i: nat): string
    requires i <= |values|
    decreases |values| - i
  {
    if i == |values| then "" else values[i] + Joined(values, i + 1)
  }

  /** The attribute for the given values; an absent value is empty. */
  function Print(values: seq<string>): string
    requires |values| <= |KEYS|
  {
    Line("n_keys", |values|) + SizeLines(values, 0) + Joined(values, 0)
  }

  /** The sizes read from the header from the `i`-th line on, and the string after it. */
  function ParseSizes(s: string, i: nat, nkeys: nat): Result<(seq<nat>, string)>
    requires i <= nkeys <= |KEYS|
    decreases nkeys - i
  {
    if i == nkeys then Ok(([], s))
    else
      var (key, afterKey) := Token(s);
      if key != KEYS[i] then Err(MissingKey(i))
      else
        var (number, afterNumber) := Token(afterKey);
        var size := Scan(number, 0);
        if size < 0 then Err(BadSize(i))
        else
          match ParseSizes(afterNumber, i + 1, nkeys)
          case Err(e) => Err(e)
          case Ok((sizes, rest)) => Ok(([size as nat] + sizes, rest))
  }

  /**
   The values cut out of `s` one after the other, `i` being the first one's index. The source does not
   compare the sizes with what there is; what it copies from beyond the end is not part of this model.
   */
  function Split(s: string, sizes: seq<nat>, i: nat): Result<seq<string>>
    decreases |sizes|
  {
    if sizes == [] then Ok([])
    else if sizes[0] > |s| then Err(Overrun(i))
    else
      match Split(s[sizes[0]..], sizes[1..], i + 1)
      case Err(e) => Err(e)
      case Ok(values) => Ok([s[..sizes[0]]] + values)
  }

  /** The setter, up to the point where the values are split out. The tape is copied with a NUL after it. */
  function Parse(tape: string, nkeys: nat): Result<seq<string>>
    requires nkeys <= |KEYS|
  {
    match ParseHeader(tape + [NUL], nkeys)
    case Err(e) => Err(e)
    case Ok((sizes, rest)) => Split(rest, sizes, 0)
  }

  /** The sizes in the header of the copied tape, and the string after the header. */
  function ParseHeader(s: string, nkeys: nat): Result<(seq<nat>, string)>
    requires nkeys <= |KEYS|
  {
    var (name, afterName) := Token(s);
    if name != "n_keys" then Err(MissingCount)
    else
      var (number, afterNumber) := Token(afterName);
      if Scan(number, -1) != nkeys then Err(WrongCount) else ParseSizes(afterNumber, 0, nkeys)
  }

  // ---------------------------------------------------------------- the round trip

  lemma DecimalIsWord(n: nat)
    ensures Word(Decimal(n))
  {
  }

  /** A header line is read back as its key and its number. */
  lemma LineTokens(key: string, n: nat, rest: string)
    requires Word(key)
    ensures Token(Line(key, n) + rest).0 == key
    ensures Token(Token(Line(key, n) + rest).1) == (Decimal(n), rest)
  {
    var afterKey := Decimal(n) + ['\n'] + rest;
    assert Line(key, n) + rest == key + ['='] + afterKey;
    TokenWord(key, '=', afterKey);
    DecimalIsWord(n);
    TokenWord(Decimal(n), '\n', rest);
  }

  function Sizes(values: seq<string>, i: nat): seq<nat>
    requires i <= |values|
    decreases |values| - i
  {
    if i == |values| then [] else [|values[i]|] + Sizes(values, i + 1)
  }

  lemma {:induction false} SizesParsed(values: seq<string>, i: nat, rest: string)
    requires i <= |values| <= |KEYS|
    ensures ParseSizes(SizeLines(values, i) + rest, i, |values|) == Ok((Sizes(values, i), rest))
    decreases |values| - i
  {
    if i == |values| {
      assert SizeLines(values, i) + rest == rest;
    } else {
      var more := SizeLines(values, i + 1) + rest;
      assert SizeLines(values, i) + rest == Line(KEYS[i], |values[i]|) + more;
      LineTokens(KEYS[i], |values[i]|, more);
      ScanDecimal(|values[i]|, 0);
      SizesParsed(values, i + 1, rest);
    }
  }

  lemma FrontOf(a: string, b: string)
    ensures (a + b)[..|a|] == a && (a + b)[|a|..] == b
  {
  }

  lemma {:induction false} ValuesSplit(values: seq<string>, i: nat, rest: string)
    requires i <= |values|
    ensures Split(Joined(values, i) + rest, Sizes(values, i), i) == Ok(values[i..])
    decreases |values| - i
  {
    if i == |values| {
      assert values[i..] == [];
    } else {
      var more := Joined(values, i + 1) + rest;
      var s := Joined(values, i) + rest;
      assert s == values[i] + more;
      FrontOf(values[i], more);
      ValuesSplit(values, i + 1, rest);
      var sizes := Sizes(values, i);
      assert sizes[0] == |values[i]| && sizes[1..] == Sizes(values, i + 1);
      hide Joined, Sizes;
      assert [values[i]] + values[i + 1..] == values[i..];
    }
  }

  /**
   For all values, whatever bytes are in them, the setter reads back from the getter's output
   exactly the values that went in when both see the same kind of file, and refuses the
   attribute when they do not.
   */
  lemma RoundTrip(values: seq<string>, nkeys: nat)
    requires |values| <= |KEYS| && nkeys <= |KEYS|
    ensures Parse(Print(values), nkeys) == if nkeys == |values| then Ok(values) else Err(WrongCount)
  {
    var sizes := SizeLines(values, 0);
    var data := Joined(values, 0) + [NUL];
    assert Print(values) + [NUL] == Line("n_keys", |values|) + (sizes + data);
    LineTokens("n_keys", |values|, sizes + data);
    ScanDecimal(|values|, -1);
    SizesParsed(values, 0, data);
    ValuesSplit(values, 0, [NUL]);
    assert values[0..] == values;
  }

  /** The attribute of one file is taken back for another exactly when both are symbolic links, or neither is. */
  lemma SameKindOfFile(values: seq<string>, wasLink: bool, isLink: bool)
    requires |values| == KeyCount(wasLink)
    ensures Parse(Print(values), KeyCount(isLink)) == if wasLink == isLink then Ok(values) else Err(WrongCount)
  {
    RoundTrip(values, KeyCount(isLink));
  }

  function Sum(sizes: seq<nat>): nat {
    if sizes == [] then 0 else sizes[0] + Sum(sizes[1..])
  }

  /** The values end inside the attribute exactly when their sizes add up to no more than what is left of it. */
  lemma {:induction false} SplitStaysInside(s: string, sizes: seq<nat>, i: nat)
    ensures Split(s, sizes, i).Ok? <==> Sum(sizes) <= |s|
    ensures Split(s, sizes, i).Ok? ==>
      var values := Split(s, sizes, i).value;
      Joined(values, 0) == s[..Sum(sizes)] && Sizes(values, 0) == sizes
    decreases |sizes|
  {
    if sizes == [] {
      assert s[..0] == "";
    } else if sizes[0] <= |s| {
      SplitStaysInside(s[sizes[0]..], sizes[1..], i + 1);
      if Sum(sizes) <= |s| {
        var rest := Split(s[sizes[0]..], sizes[1..], i + 1).value;
        JoinedInFront(s[..sizes[0]], rest, 0);
        assert s[..Sum(sizes)] == s[..sizes[0]] + s[sizes[0]..][..Sum(sizes[1..])];
      }
    }
  }

  // ---------------------------------------------------------------- where the values lie

  /** `rest` is what is left of `s` from some position on. */
  ghost predicate TailOf(s: string, rest: string) {
    |rest| <= |s| && rest == s[|s| - |rest|..]
  }

  lemma TailOfTail(a: string, b: string, c: string)
    requires TailOf(a, b) && TailOf(b, c)
    ensures TailOf(a, c)
  {
  }

  /** A C string with its terminator: nothing behind the last NUL. */
  ghost predicate Ended(s: string) {
    s != [] && s[|s| - 1] == NUL
  }

  /** No token takes the last terminator away. */
  lemma {:induction false} SkipInside(s: string)
    requires Ended(s)
    ensures TailOf(s, Skip(s)) && Ended(Skip(s))
    decreases |s|
  {
    if IsDelimiter(s[0]) {
      SkipInside(s[1..]);
      TailOfTail(s, s[1..], Skip(s));
    }
  }

  lemma {:induction false} CutInside(s: string)
    requires Ended(s)
    ensures TailOf(s, Cut(s).1) && Ended(Cut(s).1)
    decreases |s|
  {
    if s[0] != NUL && !IsDelimiter(s[0]) {
      CutInside(s[1..]);
      TailOfTail(s, s[1..], Cut(s).1);
    }
  }

  lemma TokenInside(s: string)
    requires Ended(s)
    ensures TailOf(s, Token(s).1) && Ended(Token(s).1)
  {
    SkipInside(s);
    CutInside(Skip(s));
    TailOfTail(s, Skip(s), Token(s).1);
  }

  lemma {:induction false} SizesInside(s: string, i: nat, nkeys: nat)
    requires Ended(s) && i <= nkeys <= |KEYS|
    ensures ParseSizes(s, i, nkeys).Ok? ==>
      TailOf(s, ParseSizes(s, i, nkeys).value.1) && Ended(ParseSizes(s, i, nkeys).value.1)
    decreases nkeys - i
  {
    assert TailOf(s, s);
    hide TailOf, Ended, Token, Scan;
    if i < nkeys && ParseSizes(s, i, nkeys).Ok? {
      var afterNumber := Token(Token(s).1).1;
      TwoTokensInside(s);
      SizesInside(afterNumber, i + 1, nkeys);
      assert ParseSizes(s, i, nkeys).value.1 == ParseSizes(afterNumber, i + 1, nkeys).value.1;
      TailOfTail(s, afterNumber, ParseSizes(s, i, nkeys).value.1);
    }
  }

  lemma TwoTokensInside(s: string)
    requires Ended(s)
    ensures TailOf(s, Token(Token(s).1).1) && Ended(Token(Token(s).1).1)
  {
    TokenInside(s);
    TokenInside(Token(s).1);
    TailOfTail(s, Token(s).1, Token(Token(s).1).1);
  }

  lemma HeaderInside(tape: string, nkeys: nat)
    requires nkeys <= |KEYS|
    ensures
      var header := ParseHeader(tape + [NUL], nkeys);
      header.Ok? ==> TailOf(tape + [NUL], header.value.1) && Ended(header.value.1)
  {
    var s := tape + [NUL];
    hide TailOf, Token, Scan, ParseSizes;
    TwoTokensInside(s);
    if ParseHeader(s, nkeys).Ok? {
      SizesInside(Token(Token(s).1).1, 0, nkeys);
      TailOfTail(s, Token(Token(s).1).1, ParseHeader(s, nkeys).value.1);
    }
  }

  /**
   For any attribute whatever: the setter takes `k` bytes for the header, and the values follow each
   other from there. They lie in the attribute exactly when the sizes add up to no more than what
   follows the header in it; one byte more and the last value ends with the terminator of the copy; and
   with more than that they lie outside the copy.
   */
  lemma ValuesInside(tape: string, nkeys: nat) returns (k: nat)
    requires nkeys <= |KEYS|
    ensures
      var header := ParseHeader(tape + [NUL], nkeys);
      var values := Parse(tape, nkeys);
      && (header.Err? ==> values == Err(header.error))
      && (header.Ok? ==>
            var (sizes, rest) := header.value;
            && k <= |tape| && rest == (tape + [NUL])[k..]
            && (values.Err? <==> Sum(sizes) > |tape| - k + 1)
            && (values.Ok? ==> Sizes(values.value, 0) == sizes)
            && (Sum(sizes) <= |tape| - k ==> Joined(values.value, 0) == tape[k..k + Sum(sizes)])
            && (Sum(sizes) == |tape| - k + 1 ==> Joined(values.value, 0) == tape[k..] + [NUL]))
  {
    k := 0;
    HeaderInside(tape, nkeys);
    hide ParseHeader, Split, Sum, Joined, Sizes;
    if ParseHeader(tape + [NUL], nkeys).Ok? {
      var (sizes, rest) := ParseHeader(tape + [NUL], nkeys).value;
      k := |tape| + 1 - |rest|;
      ValuesFrom(tape, k, sizes);
    }
  }

  lemma ValuesFrom(tape: string, k: nat, sizes: seq<nat>)
    requires k <= |tape|
    ensures
      var values := Split((tape + [NUL])[k..], sizes, 0);
      && (values.Err? <==> Sum(sizes) > |tape| - k + 1)
      && (values.Ok? ==> Sizes(values.value, 0) == sizes)
      && (Sum(sizes) <= |tape| - k ==> Joined(values.value, 0) == tape[k..k + Sum(sizes)])
      && (Sum(sizes) == |tape| - k + 1 ==> Joined(values.value, 0) == tape[k..] + [NUL])
  {
    var rest := (tape + [NUL])[k..];
    SplitStaysInside(rest, sizes, 0);
    hide Split, Sum, Joined, Sizes;
    if k + Sum(sizes) <= |tape| + 1 {
      FrontOfCopy(tape, k, Sum(sizes));
    }
  }

  lemma FrontOfCopy(tape: string, k: nat, n: nat)
    requires k <= |tape| && k + n <= |tape| + 1
    ensures k + n <= |tape| ==> (tape + [NUL])[k..][..n] == tape[k..k + n]
    ensures k + n == |tape| + 1 ==> (tape + [NUL])[k..][..n] == tape[k..] + [NUL]
  {
  }

  /** Nothing follows these headers in the attribute: a size of one takes the terminator, one of two is too much. */
  lemma SizesTooLarge()
    ensures Parse(Line("n_keys", 1) + Line("system.owner", 1), 1) == Ok([[NUL]])
    ensures Parse(Line("n_keys", 1) + Line("system.owner", 2), 1) == Err(Overrun(0))
  {
    ShortTape(1);
    ShortTape(2);
    hide Parse, Line;
    var s, sizes: seq<nat> := [NUL], [1];
    assert s[1..] == [] && sizes[1..] == [] && s[..1] == s;
    assert Split(s[1..], sizes[1..], 1) == Ok([]);
    assert [s[..1]] + [] == [s];
  }

  lemma ShortTape(n: nat)
    ensures Parse(Line("n_keys", 1) + Line("system.owner", n), 1) == Split([NUL], [n], 0)
  {
    var tape := Line("n_keys", 1) + Line(KEYS[0], n);
    assert tape + [NUL] == Line("n_keys", 1) + (Line(KEYS[0], n) + [NUL]);
    LineTokens("n_keys", 1, Line(KEYS[0], n) + [NUL]);
    ScanDecimal(1, -1);
    LineTokens(KEYS[0], n, [NUL]);
    ScanDecimal(n, 0);
    hide Token, Line;
    assert ParseSizes([NUL], 1, 1) == Ok(([], [NUL]));
  }

  lemma {:induction false} JoinedInFront(first: string, rest: seq<string>, i: nat)
    requires i <= |rest|
    ensures Joined([first] + rest, i + 1) == Joined(rest, i) && Sizes([first] + rest, i + 1) == Sizes(rest, i)
    decreases |rest| - i
  {
    var all := [first] + rest;
    assert |all| == |rest| + 1;
    if i < |rest| {
      assert all[i + 1] == rest[i];
      JoinedInFront(first, rest, i + 1);
    }
  }

  /** What the attribute of a file looks like, byte for byte. */
  lemma PrintedForm(owner: string, exnode: string)
    ensures Print([owner, exnode])
      == "n_keys=2\n" + ("system.owner=" + Decimal(|owner|) + "\n") + ("system.exnode=" + Decimal(|exnode|) + "\n")
         + owner + exnode
    ensures Print([owner]) == "n_keys=1\n" + ("system.owner=" + Decimal(|owner|) + "\n") + owner
  {
    LinesPrinted(|owner|, |exnode|);
    PrintedBoth([owner, exnode]);
    PrintedOne([owner]);
    hide Print, Decimal, Line;
  }

  lemma LinesPrinted(m: nat, n: nat)
    ensures Line("n_keys", 1) == "n_keys=1\n" && Line("n_keys", 2) == "n_keys=2\n"
    ensures Line(KEYS[0], m) == "system.owner=" + Decimal(m) + "\n"
    ensures Line(KEYS[1], n) == "system.exnode=" + Decimal(n) + "\n"
  {
    assert Decimal(1) == "1" && Decimal(2) == "2";
    assert "system.owner" + "=" == "system.owner=" && "system.exnode" + "=" == "system.exnode=";
    hide Decimal;
  }

  lemma PrintedBoth(values: seq<string>)
    requires |values| == 2
    ensures Print(values)
      == Line("n_keys", 2) + Line(KEYS[0], |values[0]|) + Line(KEYS[1], |values[1]|) + values[0] + values[1]
  {
    var first, second := Line(KEYS[0], |values[0]|), Line(KEYS[1], |values[1]|);
    assert SizeLines(values, 2) == "" && Joined(values, 2) == "";
    assert SizeLines(values, 1) == second + "" && Joined(values, 1) == values[1] + "";
    assert SizeLines(values, 0) == first + (second + "") && Joined(values, 0) == values[0] + (values[1] + "");
    hide SizeLines, Joined, Line;
    FiveParts(Line("n_keys", 2), first, second, values[0], values[1]);
  }

  lemma FiveParts(a: string, b: string, c: string, d: string, e: string)
    ensures a + (b + (c + "")) + (d + (e + "")) == a + b + c + d + e
  {
    assert c + "" == c && e + "" == e;
    assert a + (b + c) == a + b + c;
  }

  lemma PrintedOne(values: seq<string>)
    requires |values| == 1
    ensures Print(values) == Line("n_keys", 1) + Line(KEYS[0], |values[0]|) + values[0]
  {
    var first := Line(KEYS[0], |values[0]|);
    assert SizeLines(values, 1) == "" && Joined(values, 1) == "";
    assert SizeLines(values, 0) == first + "" && Joined(values, 0) == values[0] + "";
    hide SizeLines, Joined, Line;
    assert first + "" == first && values[0] + "" == values[0];
  }

  // ---------------------------------------------------------------- when an attribute is taken

  /** What follows the first `k` tokens of a C string, and the `k`-th token, from 0. */
  function After(s: string, k: nat): string {
    if k == 0 then s else Token(After(s, k - 1)).1
  }

  function TokenAt(s: string, k: nat): string {
    Token(After(s, k)).0
  }

  /** The `m`-th pair of tokens after the first `k`: a name, and a number. */
  function NameAt(s: string, k: nat, m: nat): string {
    TokenAt(s, k + 2 * m)
  }

  function NumberAt(s: string, k: nat, m: nat): int {
    Scan(TokenAt(s, k + 2 * m + 1), 0)
  }

  /** The pairs after the first `k` tokens are sizes under the names of the keys from the `i`-th on. */
  ghost predicate Pairs(s: string, k: nat, i: nat, nkeys: nat)
    requires i <= nkeys <= |KEYS|
  {
    forall m :: 0 <= m < nkeys - i ==> NameAt(s, k, m) == KEYS[i + m] && NumberAt(s, k, m) >= 0
  }

  ghost predicate AreNumbers(sizes: seq<nat>, s: string, k: nat) {
    forall m :: 0 <= m < |sizes| ==> sizes[m] == NumberAt(s, k, m)
  }

  /** The tokens of a header: the count under its name, and each size under its own. */
  ghost predicate HeaderOf(s: string, nkeys: nat)
    requires nkeys <= |KEYS|
  {
    TokenAt(s, 0) == "n_keys" && Scan(TokenAt(s, 1), -1) == nkeys && Pairs(s, 2, 0, nkeys)
  }

  lemma PairsInTurn(s: string, k: nat, i: nat, nkeys: nat)
    requires i < nkeys <= |KEYS|
    ensures Pairs(s, k, i, nkeys) <==>
      NameAt(s, k, 0) == KEYS[i] && NumberAt(s, k, 0) >= 0 && Pairs(s, k + 2, i + 1, nkeys)
  {
    hide NameAt, NumberAt;
    var next := k + 2;
    forall m: nat ensures NameAt(s, next, m) == NameAt(s, k, m + 1) && NumberAt(s, next, m) == NumberAt(s, k, m + 1) {
      LaterPair(s, k, m);
    }
    if Pairs(s, k + 2, i + 1, nkeys) && NameAt(s, k, 0) == KEYS[i] && NumberAt(s, k, 0) >= 0 {
      forall m | 0 <= m < nkeys - i ensures NameAt(s, k, m) == KEYS[i + m] && NumberAt(s, k, m) >= 0 {
        if m > 0 {
          LaterPair(s, k, m - 1);
        }
      }
    }
  }

  lemma NumbersInTurn(s: string, k: nat, first: nat, sizes: seq<nat>)
    requires first == NumberAt(s, k, 0) && AreNumbers(sizes, s, k + 2)
    ensures AreNumbers([first] + sizes, s, k)
  {
    hide NumberAt;
    var all := [first] + sizes;
    forall m | 0 <= m < |all| ensures all[m] == NumberAt(s, k, m) {
      if m > 0 {
        LaterPair(s, k, m - 1);
      }
    }
  }

  /** The sizes are read in turn from the pairs after the first `k` tokens. */
  lemma {:induction false} SizesAreTokens(s: string, k: nat, i: nat, nkeys: nat)
    requires i <= nkeys <= |KEYS|
    ensures
      var r := ParseSizes(After(s, k), i, nkeys);
      && (r.Ok? <==> Pairs(s, k, i, nkeys))
      && (r.Ok? ==>
            && |r.value.0| == nkeys - i && r.value.1 == After(s, k + 2 * (nkeys - i))
            && AreNumbers(r.value.0, s, k))
    decreases nkeys - i
  {
    if i < nkeys {
      hide Token, Scan, ParseSizes, NameAt, NumberAt, After, TokenAt, Pairs, AreNumbers;
      SizesAreTokens(s, k + 2, i + 1, nkeys);
      FirstSize(s, k, i, nkeys);
      PairsInTurn(s, k, i, nkeys);
      if ParseSizes(After(s, k), i, nkeys).Ok? {
        NumbersInTurn(s, k, NumberAt(s, k, 0), ParseSizes(After(s, k + 2), i + 1, nkeys).value.0);
      }
    }
  }

  lemma FirstSize(s: string, k: nat, i: nat, nkeys: nat)
    requires i < nkeys <= |KEYS|
    ensures
      var r, more := ParseSizes(After(s, k), i, nkeys), ParseSizes(After(s, k + 2), i + 1, nkeys);
      && (r.Ok? <==> NameAt(s, k, 0) == KEYS[i] && NumberAt(s, k, 0) >= 0 && more.Ok?)
      && (r.Ok? ==> r.value == ([NumberAt(s, k, 0) as nat] + more.value.0, more.value.1))
  {
    FirstPair(s, k);
    hide Token, Scan, NameAt, NumberAt, After;
  }

  lemma FirstPair(s: string, k: nat)
    ensures NameAt(s, k, 0) == Token(After(s, k)).0
    ensures NumberAt(s, k, 0) == Scan(Token(Token(After(s, k)).1).0, 0)
    ensures After(s, k + 2) == Token(Token(After(s, k)).1).1
  {
    hide Token, Scan;
    assert After(s, k + 1) == Token(After(s, k)).1;
  }

  lemma LaterPair(s: string, k: nat, m: nat)
    ensures NameAt(s, k, m + 1) == NameAt(s, k + 2, m) && NumberAt(s, k, m + 1) == NumberAt(s, k + 2, m)
  {
    assert k + 2 * (m + 1) == k + 2 + 2 * m;
  }

  /**
   The setter takes an attribute exactly when its tokens are a header for as many values as it expects,
   and the sizes are those in the header.
   */
  lemma HeaderIsTokens(s: string, nkeys: nat)
    requires nkeys <= |KEYS|
    ensures ParseHeader(s, nkeys).Ok? <==> HeaderOf(s, nkeys)
    ensures ParseHeader(s, nkeys).Ok? ==>
      var (sizes, rest) := ParseHeader(s, nkeys).value;
      && |sizes| == nkeys && rest == After(s, 2 * nkeys + 2)
      && AreNumbers(sizes, s, 2)
  {
    hide Token, Scan, ParseSizes;
    assert After(s, 0) == s && After(s, 1) == Token(s).1 && After(s, 2) == Token(After(s, 1)).1;
    SizesAreTokens(s, 2, 0, nkeys);
  }

  /** Two files get the same attribute only if they have the same values. */
  lemma PrintIsInjective(a: seq<string>, b: seq<string>)
    requires |a| <= |KEYS| && |b| <= |KEYS| && Print(a) == Print(b)
    ensures a == b
  {
    RoundTrip(a, |a|);
    RoundTrip(b, |a|);
  }

  // ---------------------------------------------------------------- the header buffer

  const HEADER_MAX := 1024
  const MAX_INT := 0x7fff_ffff

  function PowerOfTen(k: nat): nat {
    if k == 0 then 1 else 10 * PowerOfTen(k - 1)
  }

  lemma {:induction false} DecimalLength(n: nat, k: nat)
    requires 1 <= k && n < PowerOfTen(k)
    ensures |Decimal(n)| <= k
  {
    if n >= 10 {
      assert k >= 2 by {
        assert PowerOfTen(1) == 10 * PowerOfTen(0);
      }
      DecimalLength(n / 10, k - 1);
    }
  }

  /** The header always fits the getter's fixed buffer, so nothing of it is cut off. */
  lemma HeaderFits(values: seq<string>)
    requires |values| <= |KEYS| && forall i :: 0 <= i < |values| ==> |values[i]| <= MAX_INT
    ensures |Line("n_keys", |values|) + SizeLines(values, 0)| < HEADER_MAX
  {
    assert PowerOfTen(10) > MAX_INT by {
      assert PowerOfTen(2) == 100 && PowerOfTen(4) == 10_000 && PowerOfTen(6) == 1_000_000 &&
        PowerOfTen(8) == 100_000_000;
    }
    DecimalLength(|values|, 10);
    SizeLinesLength(values, 0);
  }

  lemma {:induction false} SizeLinesLength(values: seq<string>, i: nat)
    requires i <= |values| <= |KEYS| && PowerOfTen(10) > MAX_INT
    requires forall k :: 0 <= k < |values| ==> |values[k]| <= MAX_INT
    ensures |SizeLines(values, i)| <= (|values| - i) * 25
    decreases |values| - i
  {
    if i < |values| {
      DecimalLength(|values[i]|, 10);
      SizeLinesLength(values, i + 1);
    }
  }

  // ---------------------------------------------------------------- as the source does it

  /** lfs_get_tape_attr, 1181-1208: compose the header, then copy it and the values into the buffer. */
  method GetTapeAttr(values: seq<string>, symlink: bool) returns (tape: string)
    requires |values| == KeyCount(symlink)
    ensures tape == Print(values)
  {
    var header := Line("n_keys", |values|);
    for i := 0 to |values|
      invariant header + SizeLines(values, i) == Line("n_keys", |values|) + SizeLines(values, 0)
    {
      var line := Line(KEYS[i], |values[i]|);
      assert header + SizeLines(values, i) == header + line + SizeLines(values, i + 1);
      header := header + line;
    }
    assert header + "" == header;
    tape := header;
    for i := 0 to |values|
      invariant tape + Joined(values, i) == header + Joined(values, 0)
    {
      assert tape + Joined(values, i) == tape + values[i] + Joined(values, i + 1);
      if |values[i]| > 0 {
        tape := tape + values[i];
      } else {
        assert tape + values[i] == tape;
      }
    }
    assert tape + "" == tape;
  }

  /** lfs_set_tape_attr, 1036-1092. */
  method SetTapeAttr(tape: string, symlink: bool) returns (r: Result<seq<string>>)
    ensures r == Parse(tape, KeyCount(symlink))
  {
    var nkeys := KeyCount(symlink);
    var (name, state) := Token(tape + [NUL]);
    if name != "n_keys" {
      return Err(MissingCount);
    }
    var (count, rest) := Token(state);
    if Scan(count, -1) != nkeys {
      return Err(WrongCount);
    }
    ghost var header := rest;
    var sizes: seq<nat> := [];
    PrefixedByNothing(ParseSizes(header, 0, nkeys));
    for i := 0 to nkeys
      invariant |sizes| == i
      invariant ParseSizes(header, 0, nkeys) == Prefixed(sizes, ParseSizes(rest, i, nkeys))
    {
      var (key, afterKey) := Token(rest);
      if key != KEYS[i] {
        return Err(MissingKey(i));
      }
      var (number, afterNumber) := Token(afterKey);
      var size := Scan(number, 0);
      if size < 0 {
        return Err(BadSize(i));
      }
      PrefixedTwice(sizes, [size], ParseSizes(afterNumber, i + 1, nkeys));
      sizes := sizes + [size];
      rest := afterNumber;
    }
    assert sizes + [] == sizes;
    r := SplitValues(rest, sizes);
  }

  /** 1081-1092: the values, one after the other. */
  method SplitValues(rest: string, sizes: seq<nat>) returns (r: Result<seq<string>>)
    ensures r == Split(rest, sizes, 0)
  {
    var values: seq<string> := [];
    var n := 0;
    assert rest[n..] == rest && sizes[0..] == sizes;
    ValuesPrefixedByNothing(Split(rest, sizes, 0));
    for i := 0 to |sizes|
      invariant 0 <= n <= |rest| && |values| == i
      invariant Split(rest, sizes, 0) == PrefixedValues(values, Split(rest[n..], sizes[i..], i))
    {
      assert sizes[i..][0] == sizes[i] && sizes[i..][1..] == sizes[i + 1..];
      if n + sizes[i] > |rest| {
        return Err(Overrun(i));
      }
      assert rest[n..][..sizes[i]] == rest[n..n + sizes[i]] && rest[n..][sizes[i]..] == rest[n + sizes[i]..];
      ValuesPrefixedTwice(values, [rest[n..n + sizes[i]]], Split(rest[n + sizes[i]..], sizes[i + 1..], i + 1));
      values := values + [rest[n..n + sizes[i]]];
      n := n + sizes[i];
    }
    assert values + [] == values;
    return Ok(values);
  }

  ghost function Prefixed(sizes: seq<nat>, r: Result<(seq<nat>, string)>): Result<(seq<nat>, string)> {
    match r
    case Err(e) => Err(e)
    case Ok((more, rest)) => Ok((sizes + more, rest))
  }

  lemma PrefixedTwice(a: seq<nat>, b: seq<nat>, r: Result<(seq<nat>, string)>)
    ensures Prefixed(a, Prefixed(b, r)) == Prefixed(a + b, r)
  {
    if r.Ok? {
      assert a + (b + r.value.0) == a + b + r.value.0;
    }
  }

  ghost function PrefixedValues(values: seq<string>, r: Result<seq<string>>): Result<seq<string>> {
    match r
    case Err(e) => Err(e)
    case Ok(more) => Ok(values + more)
  }

  lemma PrefixedByNothing(r: Result<(seq<nat>, string)>)
    ensures Prefixed([], r) == r
  {
    if r.Ok? {
      assert [] + r.value.0 == r.value.0;
    }
  }

  lemma ValuesPrefixedTwice(a: seq<string>, b: seq<string>, r: Result<seq<string>>)
    ensures PrefixedValues(a, PrefixedValues(b, r)) == PrefixedValues(a + b, r)
  {
    if r.Ok? {
      assert a + (b + r.value) == a + b + r.value;
    }
  }

  lemma ValuesPrefixedByNothing(r: Result<seq<string>>)
    ensures PrefixedValues([], r) == r
  {
    if r.Ok? {
      assert [] + r.value == r.value;
    }
  }
}
