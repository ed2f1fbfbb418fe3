/**
 * The string and validation logic of the dictionary preprocessor: the thousands separators of
 * its statistics output, the checks on its command-line arguments, the split of the CDN host
 * into bucket and region, and the key the compressed database is uploaded under.
 */
module Preprocessor {
  import opened Wrappers
  import opened Text

  /** Rust's `u64`. */
  type u64 = x: int | 0 <= x < 0x1_0000_0000_0000_0000

  predicate IsDigit(c: char) {
    '0' <= c <= '9'
  }

  predicate AllDigits(s: string) {
    forall i :: 0 <= i < |s| ==> IsDigit(s[i])
  }

  function DigitChar(d: nat): (c: char)
    requires d < 10
    ensures IsDigit(c) && c as int - '0' as int == d
  {
    ('0' as int + d) as char
  }

  /** `u64::to_string`: the decimal digits of `n`, most significant first, with no leading zero. */
  function DecimalDigits(n: nat): string
    decreases n
  {
    if n < 10 then [DigitChar(n)] else DecimalDigits(n / 10) + [DigitChar(n % 10)]
  }

  /** The number a string of decimal digits denotes. */
  function DigitsValue(s: string): nat
    requires AllDigits(s)
  {
    if s == [] then 0 else 10 * DigitsValue(s[..|s| - 1]) + (s[|s| - 1] as int - '0' as int)
  }

  /** The digits of `n` are decimal digits that denote `n`, without a leading zero. */
  lemma {:induction false} DecimalDigitsValue(n: nat)
    ensures |DecimalDigits(n)| > 0 && AllDigits(DecimalDigits(n))
    ensures DigitsValue(DecimalDigits(n)) == n
    ensures |DecimalDigits(n)| > 1 ==> DecimalDigits(n)[0] != '0'
    decreases n
  {
    if n >= 10 {
      DecimalDigitsValue(n / 10);
      var s := DecimalDigits(n);
      assert s[..|s| - 1] == DecimalDigits(n / 10);
    }
  }

  /** A number has at most three digits exactly when it is below 1000. */
  lemma DecimalDigitsShort(n: nat)
    ensures |DecimalDigits(n)| <= 3 <==> n < 1000
  {
    if n >= 10 {
      if n >= 100 {
        assert DecimalDigits(n / 10) == DecimalDigits(n / 100) + [DigitChar(n / 10 % 10)];
      }
    }
  }

  // ----- Thousands separators -----

  /**
   * The reference grouping of a digit string: a comma before every block of three digits
   * counted from the right, with 1 to 3 digits left in front.
   */
  function Grouped(d: string): string
    decreases |d|
  {
    if |d| <= 3 then d else Grouped(d[..|d| - 3]) + [','] + d[|d| - 3..]
  }

  /** The characters of `s` other than commas, in order. */
  function RemoveCommas(s: string): string {
    if s == [] then []
    else RemoveCommas(s[..|s| - 1]) + (if s[|s| - 1] == ',' then [] else [s[|s| - 1]])
  }

  /** Digit groups separated by commas: the first has 1 to 3 digits and every later one exactly 3. */
  predicate ThousandsGrouped(r: string)
    decreases |r|
  {
    if ',' !in r then 1 <= |r| <= 3 && AllDigits(r)
    else
      |r| >= 5 && r[|r| - 4] == ',' && AllDigits(r[|r| - 3..])
      && ThousandsGrouped(r[..|r| - 4])
  }

  lemma {:induction false} RemoveCommasAppend(a: string, b: string)
    ensures RemoveCommas(a + b) == RemoveCommas(a) + RemoveCommas(b)
    decreases |b|
  {
    if b != [] {
      var ab := a + b;
      assert ab[..|ab| - 1] == a + b[..|b| - 1];
      assert ab[|ab| - 1] == b[|b| - 1];
      RemoveCommasAppend(a, b[..|b| - 1]);
      assert RemoveCommas(ab) == RemoveCommas(ab[..|ab| - 1]) + (if ab[|ab| - 1] == ',' then [] else [ab[|ab| - 1]]);
    } else {
      assert a + b == a;
    }
  }

  lemma {:induction false} RemoveCommasOfDigits(d: string)
    requires AllDigits(d)
    ensures RemoveCommas(d) == d
    decreases |d|
  {
    if d != [] {
      RemoveCommasOfDigits(d[..|d| - 1]);
      assert d == d[..|d| - 1] + [d[|d| - 1]];
    }
  }

  /** Deleting the commas of the grouping gives the digits back. */
  lemma {:induction false} GroupedRemoveCommas(d: string)
    requires AllDigits(d)
    ensures RemoveCommas(Grouped(d)) == d
    decreases |d|
  {
    if |d| <= 3 {
      RemoveCommasOfDigits(d);
    } else {
      var front, back := d[..|d| - 3], d[|d| - 3..];
      forall i | 0 <= i < |front| ensures IsDigit(front[i]) { assert front[i] == d[i]; }
      forall i | 0 <= i < |back| ensures IsDigit(back[i]) { assert back[i] == d[i + |d| - 3]; }
      var g := Grouped(front);
      assert Grouped(d) == g + [','] + back;
      GroupedRemoveCommas(front);
      RemoveCommasOfDigits(back);
      RemoveCommasAppend(g + [','], back);
      RemoveCommasAppend(g, [',']);
      assert RemoveCommas([',']) == [];
      assert RemoveCommas(g + [',']) == front;
      assert d == front + back;
    }
  }

  lemma {:induction false} GroupedChars(d: string)
    requires AllDigits(d)
    ensures forall i :: 0 <= i < |Grouped(d)| ==> IsDigit(Grouped(d)[i]) || Grouped(d)[i] == ','
    decreases |d|
  {
    if |d| > 3 {
      GroupedChars(d[..|d| - 3]);
    }
  }

  /** The grouping of a non-empty digit string is well formed. */
  lemma {:induction false} GroupedIsThousandsGrouped(d: string)
    requires |d| > 0 && AllDigits(d)
    ensures ThousandsGrouped(Grouped(d))
    decreases |d|
  {
    if |d| > 3 {
      var front := d[..|d| - 3];
      var r := Grouped(d);
      GroupedIsThousandsGrouped(front);
      assert r[..|r| - 4] == Grouped(front);
      assert r[|r| - 3..] == d[|d| - 3..];
      assert r[|r| - 4] == ',';
    } else {
      assert forall i :: 0 <= i < |d| ==> d[i] != ',';
    }
  }

  /** The grouping adds one comma per full block of three digits after the first digit. */
  lemma {:induction false} GroupedLength(d: string)
    ensures |d| > 0 ==> |Grouped(d)| == |d| + (|d| - 1) / 3
    ensures |d| <= 3 ==> Grouped(d) == d
    decreases |d|
  {
    if |d| > 3 {
      var front := d[..|d| - 3];
      GroupedLength(front);
      assert |Grouped(d)| == |Grouped(front)| + 4;
      assert (|d| - 1) / 3 == (|front| - 1) / 3 + 1;
    }
  }

  /**
   * Character `p` of the grouping, counted by its distance `e` from the end: every fourth
   * position from the end (e = 3, 7, ...) is a comma, the others are the digits in order.
   */
  predicate GroupedAt(d: string, r: string, p: int)
    requires 0 <= p < |r|
  {
    var e := |r| - 1 - p;
    (r[p] == ',' <==> e % 4 == 3)
    && (e % 4 != 3 ==> 0 <= |d| - 1 - (e - e / 4) < |d| && r[p] == d[|d| - 1 - (e - e / 4)])
  }

  lemma {:induction false} GroupedPositions(d: string)
    requires |d| > 0 && AllDigits(d)
    ensures forall p :: 0 <= p < |Grouped(d)| ==> GroupedAt(d, Grouped(d), p)
    decreases |d|
  {
    var r := Grouped(d);
    GroupedLength(d);
    if |d| <= 3 {
      forall p | 0 <= p < |r| ensures GroupedAt(d, r, p) {
        assert r[p] != ',';
      }
    } else {
      var front := d[..|d| - 3];
      GroupedPositions(front);
      forall p | 0 <= p < |r| ensures GroupedAt(d, r, p) {
        if p < |Grouped(front)| {
          GroupedAtFront(d, p);
        } else {
          GroupedAtBack(d, p);
        }
      }
    }
  }

  /** A position inside the grouping of the leading digits keeps its character and its distance class. */
  lemma GroupedAtFront(d: string, p: int)
    requires |d| > 3 && 0 <= p < |Grouped(d[..|d| - 3])|
    requires GroupedAt(d[..|d| - 3], Grouped(d[..|d| - 3]), p)
    ensures p < |Grouped(d)| && GroupedAt(d, Grouped(d), p)
  {
    var front := d[..|d| - 3];
    var g, r := Grouped(front), Grouped(d);
    assert |r| == |g| + 4;
    var e := |r| - 1 - p;
    assert r[p] == g[p];
    ShiftByGroup(e - 4);
    if e % 4 != 3 {
      var k := |front| - 1 - (e - 4 - (e - 4) / 4);
      assert k == |d| - 1 - (e - e / 4);
      assert front[k] == d[k];
    }
  }

  /** The last four positions of a grouping are a comma and the last three digits. */
  lemma GroupedAtBack(d: string, p: int)
    requires |d| > 3 && AllDigits(d) && |Grouped(d[..|d| - 3])| <= p < |Grouped(d)|
    ensures GroupedAt(d, Grouped(d), p)
  {
    var g, r := Grouped(d[..|d| - 3]), Grouped(d);
    assert |r| == |g| + 4;
    var e := |r| - 1 - p;
    assert 0 <= e <= 3 && e / 4 == 0 && e % 4 == e;
    if p > |g| {
      assert r[p] == d[|d| - 1 - e] && IsDigit(d[|d| - 1 - e]);
    } else {
      assert r[p] == ',';
    }
  }

  /** Moving one group (four characters, three of them digits) further from the end. */
  lemma ShiftByGroup(e: int)
    requires e >= 0
    ensures (e + 4) % 4 == e % 4 && (e + 4) / 4 == e / 4 + 1
  {
  }

  /**
   * The buffer `format_number` builds, read by position: after `i` digits, `b` holds the first
   * `i` characters of the reversed digits `t` with a comma after every third one, so that the
   * commas are at positions 3, 7, 11, ... and position `q` otherwise holds digit `q - q / 4`.
   */
  predicate ReversedGroups(t: string, b: string, i: nat) {
    |b| == (if i == 0 then 0 else i + (i - 1) / 3)
    && (forall q :: 0 <= q < |b| ==> ReversedGroupsAt(t, b, q))
    && (i > 0 ==> b[|b| - 1] != ',')
  }

  predicate ReversedGroupsAt(t: string, b: string, q: int)
    requires 0 <= q < |b|
  {
    (b[q] == ',' <==> q % 4 == 3) && (q % 4 != 3 ==> q - q / 4 < |t| && b[q] == t[q - q / 4])
  }

  /** One turn of the loop: a comma when `i` is a positive multiple of 3, then digit `i`. */
  lemma ReversedGroupsPush(t: string, b: string, i: nat)
    requires i < |t| && t[i] != ',' && ReversedGroups(t, b, i)
    ensures ReversedGroups(t, b + (if i > 0 && i % 3 == 0 then [','] else []) + [t[i]], i + 1)
  {
    var m := i / 3;
    var b' := b + (if i > 0 && i % 3 == 0 then [','] else []) + [t[i]];
    if i > 0 && i % 3 == 0 {
      assert |b| == 4 * m - 1;
      assert (4 * m - 1) % 4 == 3 && (4 * m) % 4 == 0 && (4 * m) / 4 == m;
      assert b'[4 * m - 1] == ',' && b'[4 * m] == t[i];
    } else {
      var j := i % 3;
      assert |b| == 4 * m + j;
      assert (4 * m + j) % 4 == j && (4 * m + j) / 4 == m;
    }
    assert |b'| == (i + 1) + i / 3;
    forall q | 0 <= q < |b| ensures ReversedGroupsAt(t, b', q) {
      assert b'[q] == b[q];
      assert ReversedGroupsAt(t, b, q);
    }
  }

  /** Reversing the finished buffer gives the reference grouping. */
  lemma ReversedGroupsReverse(s: string, b: string)
    requires |s| > 0 && AllDigits(s) && ReversedGroups(Reverse(s), b, |s|)
    ensures Reverse(b) == Grouped(s)
  {
    GroupedPositions(s);
    GroupedLength(s);
    assert |b| == |Grouped(s)|;
    forall p | 0 <= p < |b| ensures Reverse(b)[p] == Grouped(s)[p] {
      ReversedPositionAgrees(s, Grouped(s), b, p);
    }
  }

  /** Position `p` of the reversed buffer and of a string laid out as the grouping hold the same character. */
  lemma ReversedPositionAgrees(s: string, g: string, b: string, p: int)
    requires |s| > 0 && 0 <= p < |b| == |g|
    requires GroupedAt(s, g, p) && ReversedGroupsAt(Reverse(s), b, |b| - 1 - p)
    ensures Reverse(b)[p] == g[p]
  {
    var t := Reverse(s);
    var q := |b| - 1 - p;
    assert Reverse(b)[p] == b[q];
    if q % 4 != 3 {
      GroupedDigitAt(s, g, p, q);
      ReversedDigitAt(t, b, q);
      var k := q - q / 4;
      assert t[k] == s[|s| - 1 - k];
    } else {
      GroupedCommaAt(s, g, p, q);
      ReversedCommaAt(t, b, q);
    }
  }

  /** A digit position of the grouping, at distance `e` from the end. */
  lemma GroupedDigitAt(d: string, r: string, p: int, e: int)
    requires 0 <= p < |r| && GroupedAt(d, r, p) && e == |r| - 1 - p && e % 4 != 3
    ensures 0 <= |d| - 1 - (e - e / 4) < |d| && r[p] == d[|d| - 1 - (e - e / 4)]
  {
  }

  /** A comma position of the grouping, at distance `e` from the end. */
  lemma GroupedCommaAt(d: string, r: string, p: int, e: int)
    requires 0 <= p < |r| && GroupedAt(d, r, p) && e == |r| - 1 - p && e % 4 == 3
    ensures r[p] == ','
  {
  }

  /** A digit position of the reversed buffer. */
  lemma ReversedDigitAt(t: string, b: string, q: int)
    requires 0 <= q < |b| && ReversedGroupsAt(t, b, q) && q % 4 != 3
    ensures q - q / 4 < |t| && b[q] == t[q - q / 4]
  {
  }

  /** A comma position of the reversed buffer. */
  lemma ReversedCommaAt(t: string, b: string, q: int)
    requires 0 <= q < |b| && ReversedGroupsAt(t, b, q) && q % 4 == 3
    ensures b[q] == ','
  {
  }

  function Reverse(s: string): (r: string)
    ensures |r| == |s| && forall i :: 0 <= i < |s| ==> r[i] == s[|s| - 1 - i]
  {
    if s == [] then [] else Reverse(s[1..]) + [s[0]]
  }

  /**
   * `format_number`: walks the digits from the right, pushing a comma before every digit whose
   * position from the right is a positive multiple of 3, and then reverses the buffer.
   */
  method FormatNumber(n: u64) returns (r: string)
    ensures r == Grouped(DecimalDigits(n))
  {
    var s := DecimalDigits(n);
    DecimalDigitsValue(n);
    var t := Reverse(s);
    var result: string := [];
    for i := 0 to |t|
      invariant ReversedGroups(t, result, i)
    {
      var c := t[i];
      assert c != ',' by { assert IsDigit(s[|s| - 1 - i]); }
      ReversedGroupsPush(t, result, i);
      ghost var before := result;
      if i > 0 && i % 3 == 0 {
        result := result + [','];
      }
      result := result + [c];
      assert result == before + (if i > 0 && i % 3 == 0 then [','] else []) + [t[i]];
    }
    r := Reverse(result);
    ReversedGroupsReverse(s, result);
  }

  /** The output of `format_number`: its digits are those of `n` and it is well grouped. */
  lemma FormatNumberDigits(n: u64)
    ensures RemoveCommas(Grouped(DecimalDigits(n))) == DecimalDigits(n)
    ensures ThousandsGrouped(Grouped(DecimalDigits(n)))
    ensures |Grouped(DecimalDigits(n))| == |DecimalDigits(n)| + (|DecimalDigits(n)| - 1) / 3
  {
    DecimalDigitsValue(n);
    GroupedRemoveCommas(DecimalDigits(n));
    GroupedIsThousandsGrouped(DecimalDigits(n));
    GroupedLength(DecimalDigits(n));
  }

  /** Numbers below 1000 are printed without a comma. */
  lemma FormatNumberSmall(n: u64)
    ensures n < 1000 <==> ',' !in Grouped(DecimalDigits(n))
  {
    DecimalDigitsShort(n);
    DecimalDigitsValue(n);
    GroupedLength(DecimalDigits(n));
    if n >= 1000 {
      GroupedPositions(DecimalDigits(n));
      var r := Grouped(DecimalDigits(n));
      assert GroupedAt(DecimalDigits(n), r, |r| - 4);
    } else {
      assert forall i :: 0 <= i < |DecimalDigits(n)| ==> DecimalDigits(n)[i] != ',' by {
        assert AllDigits(DecimalDigits(n));
      }
    }
  }

  /** The statistics line for 1234567 lines: `format_number(1234567)` is `"1,234,567"` (FormatNumber). */
  lemma FormatNumberExample()
    ensures Grouped(DecimalDigits(1234567)) == "1,234,567"
  {
    DigitsOfExample();
    GroupedExample();
  }

  /** `1234567.to_string()`. */
  lemma DigitsOfExample()
    ensures DecimalDigits(1234567) == "1234567"
  {
    assert DecimalDigits(1) == "1";
    assert DecimalDigits(12) == "12";
    assert DecimalDigits(123) == "123";
    assert DecimalDigits(1234) == "1234";
    assert DecimalDigits(12345) == "12345";
    assert DecimalDigits(123456) == "123456";
  }

  /** The grouping of the digits `1234567`. */
  lemma GroupedExample()
    ensures Grouped("1234567") == "1,234,567"
  {
    assert "1234567"[..4] == "1234";
    assert "1234"[..1] == "1";
  }

  // ----- Command line -----

  /** Why the preprocessor stops before importing or uploading. */
  datatype CliError = InputMissing | LanguageRequired | OutputExists | BadCdnUrl

  /**
   * The parsed arguments, with the two file-existence checks the program makes taken as
   * booleans: whether the input path exists and whether the output path exists.
   */
  datatype Args = Args(inputExists: bool, outputExists: bool, force: bool, quiet: bool,
                       upload: bool, language: Option<string>)

  /** What the program goes on to do once the arguments are accepted. */
  datatype Plan = Plan(removeOutput: bool, uploadKey: Option<string>)

  /** The key the compressed database is stored under: the language followed by `-dict.db.zst`. */
  function CdnKey(language: string): (k: string)
    ensures |k| == |language| + 12 && k[..|language|] == language && k[|language|..] == "-dict.db.zst"
  {
    language + "-dict.db.zst"
  }

  /** Different languages are uploaded under different keys. */
  lemma CdnKeyInjective(a: string, b: string)
    ensures CdnKey(a) == CdnKey(b) <==> a == b
  {
    if CdnKey(a) == CdnKey(b) {
      assert |a| == |b|;
      assert a == CdnKey(a)[..|a|];
    }
  }

  /**
   * The checks `main` makes before any work, in their order: the input must exist, an upload
   * needs a language, and an existing output needs `--force`. An accepted run removes an
   * existing output, and uploads under the key of its language when asked to.
   */
  function ValidateArgs(args: Args): (r: Result<Plan, CliError>)
    ensures r.Ok? <==> (args.inputExists && (args.upload ==> args.language.Some?)
                        && (args.outputExists ==> args.force))
    ensures r.Ok? ==> r.value.removeOutput == args.outputExists
    ensures r.Ok? && args.upload ==> r.value.uploadKey == Some(CdnKey(args.language.value))
    ensures r.Ok? && !args.upload ==> r.value.uploadKey.None?
  {
    if !args.inputExists then Err(InputMissing)
    else if args.upload && args.language.None? then Err(LanguageRequired)
    else if args.outputExists && !args.force then Err(OutputExists)
    else Ok(Plan(args.outputExists && args.force,
                 if args.upload then Some(CdnKey(args.language.value)) else None))
  }

  /** A missing input is reported first, whatever else is wrong. */
  lemma ValidateInputFirst(args: Args)
    ensures !args.inputExists <==> ValidateArgs(args) == Err(InputMissing)
  {
  }

  /** With the input present, an upload without a language is reported before an existing output. */
  lemma ValidateLanguageSecond(args: Args)
    ensures ValidateArgs(args) == Err(LanguageRequired)
            <==> args.inputExists && args.upload && args.language.None?
  {
  }

  /** An existing output without `--force` is reported only when the first two checks pass. */
  lemma ValidateOutputThird(args: Args)
    ensures ValidateArgs(args) == Err(OutputExists)
            <==> args.inputExists && (args.upload ==> args.language.Some?)
                 && args.outputExists && !args.force
  {
  }

  // ----- CDN host -----

  /** `str::split(sep)`: the pieces between the occurrences of `sep`; `Split("", sep)` is `[""]`. */
  function Split(s: string, sep: char): (r: seq<string>)
    ensures |r| > 0
    ensures forall k :: 0 <= k < |r| ==> sep !in r[k]
    decreases |s|
  {
    if s == [] then [""]
    else
      var rest := Split(s[1..], sep);
      if s[0] == sep then [""] + rest else [[s[0]] + rest[0]] + rest[1..]
  }

  /** Joining the pieces with the separator gives the string back. */
  lemma {:induction false} SplitJoin(s: string, sep: char)
    ensures Join(Split(s, sep), [sep]) == s
    decreases |s|
  {
    if s != [] {
      var rest := Split(s[1..], sep);
      SplitJoin(s[1..], sep);
      if s[0] == sep {
        assert ([""] + rest)[1..] == rest;
      } else {
        var r := [[s[0]] + rest[0]] + rest[1..];
        if |rest| > 1 {
          assert r[1..] == rest[1..];
          assert rest == [rest[0]] + rest[1..];
          assert Join(rest, [sep]) == rest[0] + [sep] + Join(rest[1..], [sep]);
        }
      }
    }
  }

  /** The number of occurrences of `c` in `s`. */
  function Occurrences(s: string, c: char): nat {
    if s == [] then 0 else (if s[0] == c then 1 else 0) + Occurrences(s[1..], c)
  }

  /** The number of pieces is one more than the number of separators. */
  lemma {:induction false} SplitCount(s: string, sep: char)
    ensures |Split(s, sep)| == Occurrences(s, sep) + 1
    decreases |s|
  {
    if s != [] {
      SplitCount(s[1..], sep);
    }
  }

  /** Where the upload goes, as read from the host of `CDN_URL`. */
  datatype CdnTarget = CdnTarget(bucket: string, region: string, endpoint: string)

  /**
   * The host split of `upload_to_cdn`: the host must have at least three dot-separated
   * labels; the first is the bucket, the second the region, and the endpoint is the
   * DigitalOcean Spaces host of that region.
   */
  function ParseCdnHost(host: string): (r: Result<CdnTarget, CliError>)
    ensures r.Err? <==> |Split(host, '.')| < 3
    ensures r.Err? ==> r.error == BadCdnUrl
    ensures r.Ok? ==> r.value.bucket == Split(host, '.')[0] && r.value.region == Split(host, '.')[1]
    ensures r.Ok? ==> r.value.endpoint == "https://" + r.value.region + ".digitaloceanspaces.com"
  {
    var parts := Split(host, '.');
    if |parts| < 3 then Err(BadCdnUrl)
    else Ok(CdnTarget(parts[0], parts[1], "https://" + parts[1] + ".digitaloceanspaces.com"))
  }

  /**
   * An accepted host starts with the bucket, a dot, the region and a dot; neither label holds
   * a dot; and a host is accepted exactly when it holds at least two dots.
   */
  lemma ParseCdnHostShape(host: string)
    ensures ParseCdnHost(host).Ok? <==> Occurrences(host, '.') >= 2
    ensures ParseCdnHost(host).Ok? ==>
      var t := ParseCdnHost(host).value;
      '.' !in t.bucket && '.' !in t.region
      && exists rest :: host == t.bucket + "." + t.region + "." + rest
  {
    SplitCount(host, '.');
    var parts := Split(host, '.');
    if |parts| >= 3 {
      SplitJoin(host, '.');
      var rest := Join(parts[2..], ".");
      assert parts == [parts[0]] + parts[1..];
      assert Join(parts, ".") == parts[0] + "." + Join(parts[1..], ".");
      assert parts[1..][1..] == parts[2..];
      assert Join(parts[1..], ".") == parts[1] + "." + rest;
      assert host == parts[0] + "." + parts[1] + "." + rest;
    }
  }

  /**
   * The URL format the program documents, `https://{bucket}.{region}.digitaloceanspaces.com`:
   * any host made of a dot-free bucket, a dot, a dot-free region and a dot is accepted with
   * that bucket and region.
   */
  lemma ParseCdnHostOfLabels(bucket: string, region: string, rest: string)
    requires '.' !in bucket && '.' !in region
    ensures ParseCdnHost(bucket + "." + region + "." + rest)
            == Ok(CdnTarget(bucket, region, "https://" + region + ".digitaloceanspaces.com"))
  {
    var host := bucket + "." + region + "." + rest;
    assert host == bucket + "." + (region + "." + rest);
    SplitOfLabel(bucket, region + "." + rest);
    SplitOfLabel(region, rest);
  }

  /** A dot-free label followed by a dot is split off as the first piece. */
  lemma {:induction false} SplitOfLabel(first: string, rest: string)
    requires '.' !in first
    ensures Split(first + "." + rest, '.') == [first] + Split(rest, '.')
    decreases |first|
  {
    var s := first + "." + rest;
    if first == [] {
      assert s[1..] == rest;
    } else {
      assert s[1..] == first[1..] + "." + rest;
      SplitOfLabel(first[1..], rest);
      assert [first[0]] + first[1..] == first;
    }
  }
}
