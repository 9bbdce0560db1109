/** The donations program (Binary/eff_donations.cc): donor records are read into a
    Treemap from amount to name, then queried for an exact amount, the next larger
    or smaller amount, or the first ten amounts in order. */
module Donations {
  import opened Failures
  import opened Decimal
  import opened Treemaps

  // ---------------------------------------------------------------------------
  // Reading the file: `std::getline` by line, then by comma
  // ---------------------------------------------------------------------------

  /** The first occurrence of d in s, or |s| when there is none. */
  function IndexOf(s: string, d: char): (i: nat)
    ensures i <= |s|
    ensures i < |s| ==> s[i] == d
    ensures forall k :: 0 <= k < i ==> s[k] != d
  {
    if s == [] then 0 else if s[0] == d then 0 else 1 + IndexOf(s[1..], d)
  }

  /** What repeated `std::getline(in, piece, d)` extracts from s: the text between
      delimiters, where a delimiter that ends s opens no further piece. */
  function Pieces(s: string, d: char): seq<string>
    decreases |s|
  {
    if s == [] then []
    else
      var i := IndexOf(s, d);
      if i == |s| then [s] else [s[..i]] + Pieces(s[i + 1..], d)
  }

  /** A piece free of the delimiter, then the delimiter, starts the pieces. */
  lemma AfterDelimiter(piece: string, rest: string, d: char)
    requires forall k :: 0 <= k < |piece| ==> piece[k] != d
    ensures Pieces(piece + [d] + rest, d) == [piece] + Pieces(rest, d)
  {
    var s := piece + [d] + rest;
    assert s[|piece|] == d;
    assert IndexOf(s, d) == |piece|;
    assert s[..|piece|] == piece;
    assert s[|piece| + 1..] == rest;
  }

  /** A non-empty text free of the delimiter is a single piece. */
  lemma LastPiece(piece: string, d: char)
    requires piece != [] && forall k :: 0 <= k < |piece| ==> piece[k] != d
    ensures Pieces(piece, d) == [piece]
  {
    assert IndexOf(piece, d) == |piece|;
  }

  lemma SliceStep(piece: string, s: string, i: nat)
    requires i < |s|
    ensures piece + s[i..] == piece + [s[i]] + s[i + 1..]
  {
    assert s[i..] == [s[i]] + s[i + 1..];
  }

  /** The getline loop: characters accumulate into a piece until a delimiter, and
      the characters after the last delimiter form a piece if there are any. */
  method Split(s: string, d: char) returns (pieces: seq<string>)
    ensures pieces == Pieces(s, d)
  {
    pieces := [];
    var piece := "";
    assert piece + s[0..] == s;
    for i := 0 to |s|
      invariant forall k :: 0 <= k < |piece| ==> piece[k] != d
      invariant pieces + Pieces(piece + s[i..], d) == Pieces(s, d)
    {
      if s[i] == d {
        assert pieces + [piece] + Pieces(s[i + 1..], d) == Pieces(s, d) by {
          SliceStep(piece, s, i);
          AfterDelimiter(piece, s[i + 1..], d);
        }
        pieces := pieces + [piece];
        piece := "";
        assert piece + s[i + 1..] == s[i + 1..];
      } else {
        SliceStep(piece, s, i);
        piece := piece + [s[i]];
      }
    }
    assert piece + s[|s|..] == piece;
    if piece != [] {
      LastPiece(piece, d);
      pieces := pieces + [piece];
    }
  }

  /** The comma-separated fields of the lines, in order. */
  function Fields(lines: seq<string>): seq<string>
  {
    if lines == [] then [] else Pieces(lines[0], ',') + Fields(lines[1..])
  }

  /** The tokens the program collects from the file's text. */
  function Tokens(text: string): seq<string>
  {
    Fields(Pieces(text, '\n'))
  }

  /** Lines 86-92: each line of the file is split at its commas and the fields are
      appended to `values`. */
  method Tokenize(text: string) returns (values: seq<string>)
    ensures values == Tokens(text)
  {
    var lines := Split(text, '\n');
    values := [];
    for i := 0 to |lines|
      invariant values + Fields(lines[i..]) == Fields(lines)
    {
      assert lines[i..][1..] == lines[i + 1..];
      var fields := Split(lines[i], ',');
      values := values + fields;
    }
  }

  /** One line of a donations file as written: name, comma, amount. */
  datatype Record = Record(name: string, amount: string)

  predicate Plain(s: string)
  {
    forall k :: 0 <= k < |s| ==> s[k] != ',' && s[k] != '\n'
  }

  function Line(r: Record): string
  {
    r.name + "," + r.amount
  }

  function FileOf(records: seq<Record>): string
  {
    if records == [] then [] else Line(records[0]) + "\n" + FileOf(records[1..])
  }

  function Flatten(records: seq<Record>): seq<string>
  {
    if records == [] then [] else [records[0].name, records[0].amount] + Flatten(records[1..])
  }

  /** A line whose fields hold no comma, and whose amount is not empty, splits into
      its name and its amount. */
  lemma FieldsOfLine(r: Record)
    requires Plain(r.name) && Plain(r.amount) && r.amount != []
    ensures Pieces(Line(r), ',') == [r.name, r.amount]
    ensures forall k :: 0 <= k < |Line(r)| ==> Line(r)[k] != '\n'
  {
    assert Line(r) == r.name + [','] + r.amount;
    AfterDelimiter(r.name, r.amount, ',');
    LastPiece(r.amount, ',');
  }

  /** A file of `name,amount` lines whose fields hold no comma or line break, and
      whose amounts are not empty, is read as name, amount, name, amount, ... */
  lemma {:induction false} TokensOfFile(records: seq<Record>)
    requires forall i :: 0 <= i < |records| ==> Plain(records[i].name) && Plain(records[i].amount)
    requires forall i :: 0 <= i < |records| ==> records[i].amount != []
    ensures Tokens(FileOf(records)) == Flatten(records)
  {
    if records != [] {
      var r, rest := records[0], records[1..];
      FieldsOfLine(r);
      assert FileOf(records) == Line(r) + ['\n'] + FileOf(rest);
      AfterDelimiter(Line(r), FileOf(rest), '\n');
      TokensOfFile(rest);
      var lines := Pieces(FileOf(records), '\n');
      assert lines[0] == Line(r) && lines[1..] == Pieces(FileOf(rest), '\n');
      assert Fields(lines) == [r.name, r.amount] + Fields(lines[1..]);
    }
  }

  // ---------------------------------------------------------------------------
  // `std::stoi`
  // ---------------------------------------------------------------------------

  const IntMin: int := -0x8000_0000
  const IntMax: int := 0x7FFF_FFFF

  /** `isspace` in the C locale. */
  predicate IsSpace(c: char)
  {
    c == ' ' || c == '\t' || c == '\n' || c == '\r' || c as int == 11 || c as int == 12
  }

  function SkipSpace(s: string): string
  {
    if s != [] && IsSpace(s[0]) then SkipSpace(s[1..]) else s
  }

  /** The longest prefix of digits. */
  function DigitPrefix(s: string): (d: string)
    ensures AllDigits(d)
  {
    if s != [] && IsDigit(s[0]) then [s[0]] + DigitPrefix(s[1..]) else []
  }

  /** The text after an optional sign. */
  function Unsigned(t: string): string
  {
    if t != [] && (t[0] == '+' || t[0] == '-') then t[1..] else t
  }

  /** The value of a signed run of digits: no digit is invalid_argument and a value
      outside `int` is out_of_range. */
  function SignedValue(negative: bool, digits: string): (r: Result<int>)
    requires AllDigits(digits)
    ensures r.Ok? ==> IntMin <= r.value <= IntMax
    ensures r.Err? ==> r.error == InvalidArgument || r.error == OutOfRange
  {
    if digits == [] then Err(InvalidArgument)
    else
      var magnitude: int := DigitsValue(digits);
      var v := if negative then -magnitude else magnitude;
      if v < IntMin || IntMax < v then Err(OutOfRange) else Ok(v)
  }

  /** `std::stoi`: leading white space, an optional sign and the longest run of
      digits; text after the digits is ignored. */
  function StoI(s: string): (r: Result<int>)
    ensures r.Ok? ==> IntMin <= r.value <= IntMax
    ensures r.Err? ==> r.error == InvalidArgument || r.error == OutOfRange
  {
    var t := SkipSpace(s);
    SignedValue(t != [] && t[0] == '-', DigitPrefix(Unsigned(t)))
  }

  /** The decimal rendering of an integer, with a minus sign when negative. */
  function SignedRender(n: int): string
  {
    if n < 0 then "-" + Render(-n) else Render(n)
  }

  lemma {:induction false} DigitPrefixOfDigits(s: string)
    requires AllDigits(s)
    ensures DigitPrefix(s) == s
  {
    if s != [] {
      DigitPrefixOfDigits(s[1..]);
    }
  }

  /** `stoi` reads back every `int` from its decimal rendering. */
  lemma StoIOfRender(n: int)
    requires IntMin <= n <= IntMax
    ensures StoI(SignedRender(n)) == Ok(n)
  {
    var m := if n < 0 then -n else n;
    var digits := Render(m);
    assert SignedValue(n < 0, digits) == Ok(n) by {
      RenderValue(m);
    }
    assert DigitPrefix(Unsigned(SkipSpace(SignedRender(n)))) == digits by {
      DigitPrefixOfDigits(digits);
      assert IsDigit(digits[0]);
      var s := SignedRender(n);
      if n < 0 {
        assert s == "-" + digits && s[1..] == digits;
      }
    }
  }

  /** The argument of `who`: a leading '+' or '-' is the choice and is removed,
      otherwise the choice is ' '; `stoi` reads the amount from what remains. */
  function WhoArgument(arg: string): (r: Result<(char, int)>)
    ensures r.Ok? ==> r.value.0 in " +-" && IntMin <= r.value.1 <= IntMax
    ensures r.Ok? && r.value.0 != ' ' ==> arg != [] && arg[0] == r.value.0
    ensures arg != [] && arg[0] in "+-" ==>
      (StoI(arg[1..]).Ok? ==> r == Ok((arg[0], StoI(arg[1..]).value))) &&
      (StoI(arg[1..]).Err? ==> r == Err(StoI(arg[1..]).error))
    ensures (arg == [] || arg[0] !in "+-") ==>
      (StoI(arg).Ok? ==> r == Ok((' ', StoI(arg).value))) &&
      (StoI(arg).Err? ==> r == Err(StoI(arg).error))
    ensures r.Err? ==> r.error == InvalidArgument || r.error == OutOfRange
  {
    if arg != [] && (arg[0] == '+' || arg[0] == '-') then
      match StoI(arg[1..])
      case Ok(v) => Ok((arg[0], v))
      case Err(e) => Err(e)
    else
      match StoI(arg)
      case Ok(v) => Ok((' ', v))
      case Err(e) => Err(e)
  }

  /** A sign followed by a rendered amount gives that choice and amount; an amount
      rendered alone gives the choice ' ', unless it is negative, whose minus sign
      is taken for the choice '-'. */
  lemma WhoArgumentReads(c: char, n: int)
    requires (c == '+' || c == '-') && IntMin <= n <= IntMax
    ensures WhoArgument([c] + SignedRender(n)) == Ok((c, n))
    ensures 0 <= n ==> WhoArgument(SignedRender(n)) == Ok((' ', n))
    ensures 0 < n ==> WhoArgument(SignedRender(-n)) == Ok(('-', n))
  {
    StoIOfRender(n);
    var s := SignedRender(n);
    assert ([c] + s)[1..] == s;
    if 0 <= n {
      assert IsDigit(s[0]);
    }
    if 0 < n {
      assert SignedRender(-n)[1..] == s;
    }
  }

  // ---------------------------------------------------------------------------
  // Loading the map (lines 94-97)
  // ---------------------------------------------------------------------------

  /** The map that inserting amount -> name for each (name, amount) pair of vals
      into m gives, or the error that stops the loop: a missing amount, an amount
      `stoi` refuses, or an amount already present. */
  function Loaded(m: map<int, string>, vals: seq<string>): Result<map<int, string>>
    decreases |vals|
  {
    if vals == [] then Ok(m)
    else if |vals| == 1 then Err(OutOfRange)
    else
      match StoI(vals[1])
      case Err(e) => Err(e)
      case Ok(a) => if a in m then Err(InvalidArgument) else Loaded(m[a := vals[0]], vals[2..])
  }

  /** Pairs up the tokens as (name, amount) and inserts amount -> name. */
  method Load(values: seq<string>) returns (donation: Treemap<string>, r: Outcome)
    ensures donation.Valid()
    ensures r == Pass <==> Loaded(map[], values).Ok?
    ensures r == Pass ==> donation.Mapping() == Loaded(map[], values).value
    ensures r.Fail? ==> Loaded(map[], values) == Err(r.error)
  {
    donation := new Treemap<string>();
    var i := 0;
    while i < |values|
      invariant 0 <= i <= |values|
      invariant donation.Valid()
      invariant Loaded(map[], values) == Loaded(donation.Mapping(), values[i..])
    {
      if i + 1 >= |values| {
        return donation, Fail(OutOfRange);
      }
      assert values[i..][1] == values[i + 1] && values[i..][2..] == values[i + 2..];
      var amount := StoI(values[i + 1]);
      if amount.Err? {
        return donation, Fail(amount.error);
      }
      var inserted := donation.Insert(amount.value, values[i]);
      if inserted.Fail? {
        return donation, inserted;
      }
      i := i + 2;
    }
    r := Pass;
  }

  /** A load that succeeds had an even number of tokens, kept what the map held,
      and gained one key per pair. */
  lemma {:induction false} LoadedShape(m: map<int, string>, vals: seq<string>)
    requires Loaded(m, vals).Ok?
    ensures |vals| % 2 == 0
    ensures |Loaded(m, vals).value| == |m| + |vals| / 2
    ensures forall k :: k in m ==> k in Loaded(m, vals).value && Loaded(m, vals).value[k] == m[k]
    decreases |vals|
  {
    if vals != [] {
      var a := StoI(vals[1]).value;
      LoadedShape(m[a := vals[0]], vals[2..]);
    }
  }

  /** In a load that succeeds, the amount of every pair parses and was not yet a key. */
  lemma {:induction false} LoadedFresh(m: map<int, string>, vals: seq<string>, p: nat)
    requires Loaded(m, vals).Ok? && 2 * p + 1 < |vals|
    ensures StoI(vals[2 * p + 1]).Ok? && StoI(vals[2 * p + 1]).value !in m
    decreases |vals|
  {
    if p > 0 {
      var a := StoI(vals[1]).value;
      LoadedFresh(m[a := vals[0]], vals[2..], p - 1);
      assert vals[2..][2 * (p - 1) + 1] == vals[2 * p + 1];
    }
  }

  /** In a load that succeeds, the amount of every pair maps to that pair's name. */
  lemma {:induction false} LoadedPairs(m: map<int, string>, vals: seq<string>, p: nat)
    requires Loaded(m, vals).Ok? && 2 * p + 1 < |vals|
    ensures StoI(vals[2 * p + 1]).Ok? && StoI(vals[2 * p + 1]).value in Loaded(m, vals).value
    ensures Loaded(m, vals).value[StoI(vals[2 * p + 1]).value] == vals[2 * p]
    decreases |vals|
  {
    LoadedFresh(m, vals, p);
    var a := StoI(vals[1]).value;
    if p == 0 {
      LoadedShape(m[a := vals[0]], vals[2..]);
    } else {
      LoadedPairs(m[a := vals[0]], vals[2..], p - 1);
      assert vals[2..][2 * (p - 1) + 1] == vals[2 * p + 1];
      assert vals[2..][2 * (p - 1)] == vals[2 * p];
    }
  }

  /** A load that succeeds parsed its first amount, found it new, and went on to
      load the remaining tokens. */
  lemma LoadedFirstPair(m: map<int, string>, vals: seq<string>)
    requires Loaded(m, vals).Ok? && vals != []
    ensures |vals| >= 2 && StoI(vals[1]).Ok? && StoI(vals[1]).value !in m
    ensures Loaded(m[StoI(vals[1]).value := vals[0]], vals[2..]) == Loaded(m, vals)
  {
  }

  /** A load that succeeds had no two pairs with the same amount. */
  lemma {:induction false} LoadedDistinct(m: map<int, string>, vals: seq<string>, p: nat, q: nat)
    requires Loaded(m, vals).Ok? && p < q && 2 * q + 1 < |vals|
    ensures StoI(vals[2 * p + 1]).Ok? && StoI(vals[2 * q + 1]).Ok?
    ensures StoI(vals[2 * p + 1]).value != StoI(vals[2 * q + 1]).value
    decreases |vals|
  {
    LoadedFirstPair(m, vals);
    var a := StoI(vals[1]).value;
    var next, rest := m[a := vals[0]], vals[2..];
    assert rest[2 * (q - 1) + 1] == vals[2 * q + 1];
    if p == 0 {
      LoadedFresh(next, rest, q - 1);
    } else {
      assert rest[2 * (p - 1) + 1] == vals[2 * p + 1];
      LoadedDistinct(next, rest, p - 1, q - 1);
    }
  }

  // ---------------------------------------------------------------------------
  // Queries
  // ---------------------------------------------------------------------------

  /** s is the least key above amount. */
  ghost predicate IsSuccessor(m: map<int, string>, amount: int, s: int)
  {
    s in m && amount < s && forall k :: k in m && amount < k ==> s <= k
  }

  /** p is the greatest key below amount. */
  ghost predicate IsPredecessor(m: map<int, string>, amount: int, p: int)
  {
    p in m && p < amount && forall k :: k in m && k < amount ==> k <= p
  }

  /** `find` as written: ' ' checks that amount is a key, '+' moves to the next
      larger key and '-' to the next smaller one, guarded by `MaxKey() >= amount`
      and `MinKey() <= amount`; "No match" is NoMatch. When amount is itself the
      largest (smallest) key the guard lets it through and `CeilKey(amount + 1)`
      (`FloorKey(amount - 1)`) finds nothing. Any other choice returns amount. */
  method Find(donation: Treemap<string>, amount: int, choice: char) returns (r: Result<int>)
    requires donation.Valid()
    ensures choice == ' ' && amount in donation.Mapping() ==> r == Ok(amount)
    ensures choice == ' ' && amount !in donation.Mapping() ==> r == Err(NoMatch)
    ensures choice in "+-" && donation.Mapping() == map[] ==> r == Err(OutOfRange)
    ensures choice == '+' && (exists k :: k in donation.Mapping() && amount < k) ==> r.Ok? && IsSuccessor(donation.Mapping(), amount, r.value)
    ensures choice == '+' && amount in donation.Mapping() && (forall k :: k in donation.Mapping() ==> k <= amount) ==> r == Err(InvalidArgument)
    ensures choice == '+' && donation.Mapping() != map[] && (forall k :: k in donation.Mapping() ==> k < amount) ==> r == Err(NoMatch)
    ensures choice == '-' && (exists k :: k in donation.Mapping() && k < amount) ==> r.Ok? && IsPredecessor(donation.Mapping(), amount, r.value)
    ensures choice == '-' && amount in donation.Mapping() && (forall k :: k in donation.Mapping() ==> amount <= k) ==> r == Err(InvalidArgument)
    ensures choice == '-' && donation.Mapping() != map[] && (forall k :: k in donation.Mapping() ==> amount < k) ==> r == Err(NoMatch)
    ensures choice !in " +-" ==> r == Ok(amount)
  {
    r := Ok(amount);
    if choice == ' ' {
      var present := donation.ContainsKey(amount);
      if !present {
        return Err(NoMatch);
      }
    } else if choice == '+' {
      var max := donation.MaxKey();
      if max.Err? {
        return Err(max.error);
      }
      if max.value >= amount {
        r := donation.CeilKey(amount + 1);
      } else {
        return Err(NoMatch);
      }
    } else if choice == '-' {
      var min := donation.MinKey();
      if min.Err? {
        return Err(min.error);
      }
      if min.value <= amount {
        r := donation.FloorKey(amount - 1);
      } else {
        return Err(NoMatch);
      }
    }
  }

  /** `find` with the guards strict, `MaxKey() > amount` and `MinKey() < amount`:
      a key exactly at the boundary then reports no match instead of failing. */
  method FindIntended(donation: Treemap<string>, amount: int, choice: char) returns (r: Result<int>)
    requires donation.Valid()
    ensures choice == ' ' && amount in donation.Mapping() ==> r == Ok(amount)
    ensures choice == ' ' && amount !in donation.Mapping() ==> r == Err(NoMatch)
    ensures choice in "+-" && donation.Mapping() == map[] ==> r == Err(OutOfRange)
    ensures choice == '+' && (exists k :: k in donation.Mapping() && amount < k) ==> r.Ok? && IsSuccessor(donation.Mapping(), amount, r.value)
    ensures choice == '+' && donation.Mapping() != map[] && (forall k :: k in donation.Mapping() ==> k <= amount) ==> r == Err(NoMatch)
    ensures choice == '-' && (exists k :: k in donation.Mapping() && k < amount) ==> r.Ok? && IsPredecessor(donation.Mapping(), amount, r.value)
    ensures choice == '-' && donation.Mapping() != map[] && (forall k :: k in donation.Mapping() ==> amount <= k) ==> r == Err(NoMatch)
    ensures choice !in " +-" ==> r == Ok(amount)
  {
    r := Ok(amount);
    if choice == ' ' {
      var present := donation.ContainsKey(amount);
      if !present {
        return Err(NoMatch);
      }
    } else if choice == '+' {
      var max := donation.MaxKey();
      if max.Err? {
        return Err(max.error);
      }
      if max.value > amount {
        r := donation.CeilKey(amount + 1);
      } else {
        return Err(NoMatch);
      }
    } else if choice == '-' {
      var min := donation.MinKey();
      if min.Err? {
        return Err(min.error);
      }
      if min.value < amount {
        r := donation.FloorKey(amount - 1);
      } else {
        return Err(NoMatch);
      }
    }
  }

  /** `who +50` and `who -50` on a file whose only amount is 50: as written both
      fail inside the map instead of reporting no match. */
  method BoundaryQueries() returns (plus: Result<int>, plusIntended: Result<int>, minus: Result<int>, minusIntended: Result<int>)
    ensures plus == Err(InvalidArgument) && minus == Err(InvalidArgument)
    ensures plusIntended == Err(NoMatch) && minusIntended == Err(NoMatch)
  {
    var donation := new Treemap<string>();
    var _ := donation.Insert(50, "Ada");
    assert donation.Mapping() == map[50 := "Ada"];
    plus := Find(donation, 50, '+');
    plusIntended := FindIntended(donation, 50, '+');
    minus := Find(donation, 50, '-');
    minusIntended := FindIntended(donation, 50, '-');
  }

  /** b is the key `all` moves to from a: the least key above a, or a itself once a
      is the largest key. */
  ghost predicate Next(m: map<int, string>, a: int, b: int)
  {
    b in m && (IsSuccessor(m, a, b) || (a == b && forall k :: k in m ==> k <= a))
  }

  /** lines records keys of m with their names, each key the Next of the one
      before. */
  ghost predicate Walk(m: map<int, string>, lines: seq<(int, string)>)
  {
    (forall j :: 0 <= j < |lines| ==> lines[j].0 in m && lines[j].1 == m[lines[j].0]) &&
    (forall j :: 0 < j < |lines| ==> Next(m, lines[j - 1].0, lines[j].0))
  }

  lemma WalkExtend(m: map<int, string>, lines: seq<(int, string)>, key: int)
    requires Walk(m, lines) && key in m
    requires lines != [] ==> Next(m, lines[|lines| - 1].0, key)
    ensures Walk(m, lines + [(key, m[key])])
  {
    var longer := lines + [(key, m[key])];
    forall j | 0 < j < |longer|
      ensures Next(m, longer[j - 1].0, longer[j].0)
    {
      if j < |lines| {
        assert longer[j - 1] == lines[j - 1] && longer[j] == lines[j];
      }
    }
  }

  /** `all`: starting at the least key, ten times records the key with its name and
      moves to the next larger key unless the largest has been reached. */
  method All(donation: Treemap<string>) returns (r: Result<seq<(int, string)>>)
    requires donation.Valid()
    ensures donation.Mapping() == map[] ==> r == Err(OutOfRange)
    ensures donation.Mapping() != map[] ==> r.Ok? && |r.value| == 10
    ensures r.Ok? ==> Walk(donation.Mapping(), r.value)
    ensures r.Ok? ==> |r.value| > 0 && forall k :: k in donation.Mapping() ==> r.value[0].0 <= k
  {
    var least := donation.MinKey();
    if least.Err? {
      return Err(least.error);
    }
    var min := least.value;
    var lines: seq<(int, string)> := [];
    for i := 0 to 10
      invariant min in donation.Mapping()
      invariant |lines| == i
      invariant Walk(donation.Mapping(), lines)
      invariant i == 0 ==> min == least.value
      invariant i > 0 ==> lines[0].0 == least.value && Next(donation.Mapping(), lines[i - 1].0, min)
    {
      var name := donation.Get(min);
      WalkExtend(donation.Mapping(), lines, min);
      lines := lines + [(min, name.value)];
      min := Advance(donation, min);
    }
    r := Ok(lines);
  }

  /** One step of `all`: the next larger key, unless min is already the largest. */
  method Advance(donation: Treemap<string>, min: int) returns (next: int)
    requires donation.Valid() && min in donation.Mapping()
    ensures Next(donation.Mapping(), min, next)
  {
    next := min;
    var greatest := donation.MaxKey();
    if min < greatest.value {
      var ceil := donation.CeilKey(min + 1);
      next := ceil.value;
    }
  }

  /** lines with their last entry dropped is still a walk. */
  lemma WalkPrefix(m: map<int, string>, lines: seq<(int, string)>)
    requires lines != [] && Walk(m, lines)
    ensures Walk(m, lines[..|lines| - 1])
  {
    var init := lines[..|lines| - 1];
    assert forall j :: 0 <= j < |init| ==> init[j] == lines[j];
  }

  /** A walk visits its keys in non-decreasing order. */
  lemma {:induction false} WalkAscends(m: map<int, string>, lines: seq<(int, string)>)
    requires Walk(m, lines)
    ensures forall i, j :: 0 <= i < j < |lines| ==> lines[i].0 <= lines[j].0
  {
    if |lines| > 1 {
      var init := lines[..|lines| - 1];
      WalkPrefix(m, lines);
      WalkAscends(m, init);
      var a := init[|init| - 1].0;
      assert Next(m, a, lines[|lines| - 1].0);
      forall i, j | 0 <= i < j < |lines|
        ensures lines[i].0 <= lines[j].0
      {
        assert lines[i] == init[i];
        if j < |init| {
          assert lines[j] == init[j];
        } else {
          assert init[i].0 <= a;
        }
      }
    }
  }

  /** A walk that starts at the least key skips no key up to where it stops. */
  lemma {:induction false} NoKeySkipped(m: map<int, string>, lines: seq<(int, string)>)
    requires |lines| > 0 && Walk(m, lines) && forall k :: k in m ==> lines[0].0 <= k
    ensures forall k :: k in m && k <= lines[|lines| - 1].0 ==> exists i :: 0 <= i < |lines| && lines[i].0 == k
  {
    if |lines| > 1 {
      var init := lines[..|lines| - 1];
      WalkPrefix(m, lines);
      NoKeySkipped(m, init);
      var a, b := init[|init| - 1].0, lines[|lines| - 1].0;
      assert Next(m, a, b);
      forall k | k in m && k <= b
        ensures exists i :: 0 <= i < |lines| && lines[i].0 == k
      {
        if k <= a {
          var i :| 0 <= i < |init| && init[i].0 == k;
          assert lines[i].0 == k;
        } else {
          assert lines[|lines| - 1].0 == k;
        }
      }
    }
  }
}
