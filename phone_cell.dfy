/**
 * The "Phone numbers" cell of the CSV file (data_manager.py). Writing puts
 * the record's phone list into the cell as Python's `str(list)`, which
 * renders each phone through `Phone.__repr__`, i.e. its bare value:
 * "[" + ", ".join(values) + "]". Reading deletes every '[', ']' and ' ' and
 * splits what is left on ','.
 */
module PhoneCell {
  import opened Validators

  /** `sep.join(xs)`. */
  function Join(sep: string, xs: seq<string>): string {
    if xs == [] then ""
    else if |xs| == 1 then xs[0]
    else xs[0] + sep + Join(sep, xs[1..])
  }

  /** `str(phones)` for a list of Phone fields. */
  function EncodePhones(phones: seq<string>): (cell: string)
    ensures |cell| >= 2 && cell[0] == '[' && cell[|cell| - 1] == ']'
  {
    "[" + Join(", ", phones) + "]"
  }

  predicate IsStripped(c: char) {
    c == '[' || c == ']' || c == ' '
  }

  /** `re.sub(r"\[|\]|\ ", "", cell)`. */
  function Strip(cell: string): (r: string)
    ensures forall i | 0 <= i < |r| :: !IsStripped(r[i])
  {
    if cell == [] then []
    else (if IsStripped(cell[0]) then [] else [cell[0]]) + Strip(cell[1..])
  }

  /** `s.split(c)` with a one-character separator; `"".split(c)` is `[""]`. */
  function Split(s: string, c: char): seq<string>
    decreases |s|
  {
    match FindChar(s, c)
    case None => [s]
    case Some(i) => [s[..i]] + Split(s[i + 1..], c)
  }

  /** The phone values read back from a cell. */
  function DecodePhones(cell: string): (phones: seq<string>)
    ensures |phones| == Count(Strip(cell), ',') + 1
  {
    SplitCount(Strip(cell), ',');
    Split(Strip(cell), ',')
  }

  function Count(s: string, c: char): nat {
    if s == [] then 0 else (if s[0] == c then 1 else 0) + Count(s[1..], c)
  }

  /** A value the cell format carries unchanged: no bracket, space or comma. */
  predicate IsCellSafe(p: string) {
    forall i | 0 <= i < |p| :: !IsStripped(p[i]) && p[i] != ','
  }

  lemma {:induction false} CountSplit(a: string, b: string, c: char)
    ensures Count(a + b, c) == Count(a, c) + Count(b, c)
  {
    if a != [] {
      assert (a + b)[1..] == a[1..] + b;
      CountSplit(a[1..], b, c);
    } else {
      assert a + b == b;
    }
  }

  lemma {:induction false} StripSplit(a: string, b: string)
    ensures Strip(a + b) == Strip(a) + Strip(b)
  {
    if a != [] {
      assert (a + b)[1..] == a[1..] + b;
      StripSplit(a[1..], b);
    } else {
      assert a + b == b;
    }
  }

  lemma {:induction false} StripKeepsSafe(p: string)
    requires forall i | 0 <= i < |p| :: !IsStripped(p[i])
    ensures Strip(p) == p
  {
    if p != [] {
      StripKeepsSafe(p[1..]);
    }
  }

  /** The pieces of a split, joined with the separator, give the text back. */
  lemma {:induction false} SplitJoin(s: string, c: char)
    ensures Join([c], Split(s, c)) == s
    decreases |s|
  {
    match FindChar(s, c)
    case None =>
    case Some(i) =>
      SplitJoin(s[i + 1..], c);
      var rest := Split(s[i + 1..], c);
      assert Split(s, c) == [s[..i]] + rest;
      SplitCount(s[i + 1..], c);
      JoinCons([c], s[..i], rest);
      assert s == s[..i] + [c] + s[i + 1..];
  }

  lemma JoinCons(sep: string, x: string, rest: seq<string>)
    requires rest != []
    ensures Join(sep, [x] + rest) == x + sep + Join(sep, rest)
  {
    assert ([x] + rest)[1..] == rest;
  }

  /** No piece of a split contains the separator. */
  lemma {:induction false} SplitPiecesFree(s: string, c: char)
    ensures forall k | 0 <= k < |Split(s, c)| :: c !in Split(s, c)[k]
    decreases |s|
  {
    match FindChar(s, c)
    case None =>
    case Some(i) =>
      SplitPiecesFree(s[i + 1..], c);
      assert Split(s, c) == [s[..i]] + Split(s[i + 1..], c);
  }

  lemma {:induction false} SplitCount(s: string, c: char)
    ensures |Split(s, c)| == Count(s, c) + 1
    decreases |s|
  {
    match FindChar(s, c)
    case None =>
      NoneCounted(s, c);
    case Some(i) =>
      SplitCount(s[i + 1..], c);
      assert s == s[..i] + ([c] + s[i + 1..]);
      CountSplit(s[..i], [c] + s[i + 1..], c);
      NoneCounted(s[..i], c);
  }

  lemma {:induction false} NoneCounted(s: string, c: char)
    requires c !in s
    ensures Count(s, c) == 0
  {
    if s != [] {
      NoneCounted(s[1..], c);
    }
  }

  /** Splitting text joined with a separator that no piece contains gives the pieces back. */
  lemma {:induction false} SplitOfJoin(xs: seq<string>, c: char)
    requires xs != []
    requires forall k | 0 <= k < |xs| :: c !in xs[k]
    ensures Split(Join([c], xs), c) == xs
  {
    if |xs| > 1 {
      var tail := [c] + Join([c], xs[1..]);
      assert Join([c], xs) == xs[0] + tail;
      FirstOfTwo(xs[0], tail, c);
      assert (xs[0] + tail)[..|xs[0]|] == xs[0];
      assert (xs[0] + tail)[|xs[0]| + 1..] == Join([c], xs[1..]);
      SplitOfJoin(xs[1..], c);
    } else {
      assert Join([c], xs) == xs[0];
    }
  }

  /** Stripping the written cell of cell-safe values leaves them joined by bare commas. */
  lemma {:induction false} StripJoined(xs: seq<string>)
    requires forall k | 0 <= k < |xs| :: IsCellSafe(xs[k])
    ensures Strip(Join(", ", xs)) == Join(",", xs)
  {
    if xs == [] {
    } else if |xs| == 1 {
      StripKeepsSafe(xs[0]);
    } else {
      StripSplit(xs[0] + ", ", Join(", ", xs[1..]));
      StripSplit(xs[0], ", ");
      StripKeepsSafe(xs[0]);
      assert Strip(", ") == ",";
      StripJoined(xs[1..]);
    }
  }

  /** Writing a non-empty list of cell-safe values and reading it back gives the same values in order. */
  lemma RoundTrip(phones: seq<string>)
    requires phones != []
    requires forall k | 0 <= k < |phones| :: IsCellSafe(phones[k])
    ensures DecodePhones(EncodePhones(phones)) == phones
  {
    StripSplit("[" + Join(", ", phones), "]");
    StripSplit("[", Join(", ", phones));
    StripJoined(phones);
    assert Strip(EncodePhones(phones)) == Join(",", phones);
    SplitOfJoin(phones, ',');
  }

  /** Every valid phone is cell-safe, so a non-empty list of valid phones survives a write and a reload. */
  lemma ValidPhonesRoundTrip(phones: seq<string>)
    requires phones != []
    requires forall k | 0 <= k < |phones| :: IsValidPhone(phones[k])
    ensures DecodePhones(EncodePhones(phones)) == phones
  {
    forall k | 0 <= k < |phones|
      ensures IsCellSafe(phones[k])
    {
      ValidPhoneShape(phones[k]);
    }
    RoundTrip(phones);
  }

  /** The empty list is written as "[]" and read back as one empty phone, not as no phones. */
  lemma EmptyListDoesNotRoundTrip()
    ensures EncodePhones([]) == "[]"
    ensures DecodePhones(EncodePhones([])) == [""]
  {
    assert Strip("[]") == "";
  }
}
