/** Finding the session of a set of recipients: the stored and the given numbers are quoted, read as a
    JSON array, sorted, joined again and compared. */
module Recipients {

  // ---------------------------------------------------------------- comma-separated lists

  function Split(s: string): (r: seq<string>)
    ensures |r| > 0
  {
    if s == [] then [""]
    else if s[0] == ',' then [""] + Split(s[1..])
    else
      var rest := Split(s[1..]);
      [[s[0]] + rest[0]] + rest[1..]
  }

  function Join(values: seq<string>): string
    requires |values| > 0
  {
    if |values| == 1 then values[0] else values[0] + "," + Join(values[1..])
  }

  predicate IsNumbers(values: seq<string>) {
    |values| > 0 && forall v <- values :: v != "" && ',' !in v
  }

  lemma {:induction false} SplitFirst(first: string, rest: string)
    requires ',' !in first
    ensures Split(first) == [first]
    ensures Split(first + "," + rest) == [first] + Split(rest)
  {
    if first == "" {
      assert first + "," + rest == "," + rest;
    } else {
      SplitFirst(first[1..], rest);
      assert (first + "," + rest)[1..] == first[1..] + "," + rest;
      assert first == [first[0]] + first[1..];
    }
  }

  lemma {:induction false} SplitJoin(values: seq<string>)
    requires |values| > 0 && forall v <- values :: ',' !in v
    ensures Split(Join(values)) == values
  {
    assert values[0] in values;
    if |values| == 1 {
      SplitFirst(values[0], "");
    } else {
      SplitFirst(values[0], Join(values[1..]));
      SplitJoin(values[1..]);
    }
  }

  lemma {:induction false} JoinSplit(s: string)
    ensures Join(Split(s)) == s
  {
    if s != [] {
      JoinSplit(s[1..]);
      var rest := Split(s[1..]);
      if s[0] == ',' {
        assert Split(s)[1..] == rest;
      } else if |rest| > 1 {
        assert Split(s)[1..] == rest[1..];
      }
    }
  }

  /** REPLACE(s, ',', ''). */
  function WithoutCommas(s: string): string {
    if s == [] then [] else (if s[0] == ',' then [] else [s[0]]) + WithoutCommas(s[1..])
  }

  /** The number of values, as the query computes it from two lengths. */
  function CountOf(s: string): int {
    |s| - |WithoutCommas(s)| + 1
  }

  lemma {:induction false} CountIsSplitLength(s: string)
    ensures CountOf(s) == |Split(s)|
  {
    if s != [] {
      CountIsSplitLength(s[1..]);
    }
  }

  // ---------------------------------------------------------------- quoting

  /** REPLACE(s, ',', '","') and the closing quote. */
  function Replaced(s: string): string {
    if s == [] then "\"" else (if s[0] == ',' then "\",\"" else [s[0]]) + Replaced(s[1..])
  }

  /** How the query quotes the stored numbers. */
  function Quoted(s: string): string {
    "\"" + Replaced(s)
  }

  lemma ReplacedStep(ch: char, s: string)
    ensures Replaced([ch] + s) == (if ch == ',' then "\",\"" else [ch]) + Replaced(s)
  {
    assert ([ch] + s)[1..] == s;
  }

  lemma {:induction false} ReplacedFirst(first: string, rest: string)
    requires ',' !in first
    ensures Replaced(first) == first + "\""
    ensures Replaced(first + ([','] + rest)) == first + ("\",\"" + Replaced(rest))
  {
    if first == "" {
      assert first + ([','] + rest) == [','] + rest;
      ReplacedStep(',', rest);
      assert first + ("\",\"" + Replaced(rest)) == "\",\"" + Replaced(rest);
    } else {
      hide Replaced;
      var ch, t := first[0], first[1..];
      assert first == [ch] + t;
      ReplacedFirst(t, rest);
      ReplacedStep(ch, t);
      ReplacedStep(ch, t + ([','] + rest));
      Regrouped([ch], t, "\"");
      Regrouped([ch], t, [','] + rest);
      Regrouped([ch], t, "\",\"" + Replaced(rest));
    }
  }

  lemma Regrouped(a: string, b: string, c: string)
    ensures a + (b + c) == (a + b) + c
  {}

  /** The text that is read as an array: each number in quotes, with commas between them. */
  lemma QuotedText(values: seq<string>)
    requires |values| > 0 && forall v <- values :: ',' !in v
    ensures |values| == 1 ==> Quoted(Join(values)) == "\"" + values[0] + "\""
    ensures |values| > 1 ==> Quoted(Join(values)) == "\"" + values[0] + "\"" + [','] + Quoted(Join(values[1..]))
  {
    hide Replaced;
    assert values[0] in values;
    if |values| == 1 {
      ReplacedFirst(values[0], "");
      Regrouped("\"", values[0], "\"");
    } else {
      var rest := Join(values[1..]);
      assert Join(values) == values[0] + ([','] + rest);
      ReplacedFirst(values[0], rest);
      QuotedConcat(values[0], Replaced(rest));
    }
  }

  lemma QuotedConcat(v: string, r: string)
    ensures "\"" + (v + ("\",\"" + r)) == "\"" + v + "\"" + [','] + ("\"" + r)
  {
    assert "\",\"" == "\"" + [','] + "\"";
  }

  /** How the loop quotes what is left of the given numbers. */
  function QuotedFrom(s: string, inNumber: bool): string {
    if s == [] then if inNumber then "\"" else ""
    else QuotedChar(s[0], inNumber) + QuotedFrom(s[1..], s[0] != ',')
  }

  function QuotedChar(ch: char, inNumber: bool): string {
    if ch == ',' then "\"" + [ch] else (if inNumber then "" else "\"") + [ch]
  }

  lemma QuotedStep(result: string, s: string, inNumber: bool)
    requires s != []
    ensures result + QuotedFrom(s, inNumber) ==
      (if s[0] == ',' then result + "\"" + [s[0]]
       else if inNumber then result + [s[0]] else result + "\"" + [s[0]]) + QuotedFrom(s[1..], s[0] != ',')
  {}

  method AddQuotes(input: string) returns (result: string)
    ensures result == QuotedFrom(input, false)
    ensures result == Quoted(input) <==> "" !in Split(input)
  {
    result := "";
    var inNumber := false;
    for i := 0 to |input|
      invariant QuotedFrom(input, false) == result + QuotedFrom(input[i..], inNumber)
    {
      var ch := input[i];
      QuotedStep(result, input[i..], inNumber);
      assert input[i..][1..] == input[i + 1..];
      if ch == ',' {
        result := result + "\"";
        inNumber := false;
        result := result + [ch];
      } else {
        if !inNumber {
          result := result + "\"";
          inNumber := true;
        }
        result := result + [ch];
      }
    }
    if inNumber {
      result := result + "\"";
    }
    QuotingsAgreeIff(input);
  }

  lemma CommaTexts(a: string, r: string)
    ensures ("\"" + [',']) + a == "\",\"" + r <==> a == "\"" + r
    ensures ("\"" + [',']) + a != "\"" + ("\",\"" + r)
  {
    assert "\",\"" + r == ("\"" + [',']) + ("\"" + r);
    SamePrefix("\"" + [','], a, "\"" + r);
    assert (("\"" + [',']) + a)[1] == ',' && ("\"" + ("\",\"" + r))[1] == '"';
  }

  lemma DigitTexts(ch: char, a: string, r: string)
    ensures ("\"" + [ch]) + a == "\"" + ([ch] + r) <==> a == r
    ensures ("" + [ch]) + a == [ch] + r <==> a == r
  {
    assert "\"" + ([ch] + r) == ("\"" + [ch]) + r;
    assert "" + [ch] == [ch];
    SamePrefix("\"" + [ch], a, r);
    SamePrefix([ch], a, r);
  }

  lemma QuotingsAtComma(s: string)
    requires s != [] && s[0] == ','
    ensures QuotedFrom(s, false) != Quoted(s)
    ensures QuotedFrom(s, true) == Replaced(s) <==> QuotedFrom(s[1..], false) == Quoted(s[1..])
  {
    CommaTexts(QuotedFrom(s[1..], false), Replaced(s[1..]));
  }

  lemma QuotingsAtDigit(s: string)
    requires s != [] && s[0] != ','
    ensures QuotedFrom(s, false) == Quoted(s) <==> QuotedFrom(s[1..], true) == Replaced(s[1..])
    ensures QuotedFrom(s, true) == Replaced(s) <==> QuotedFrom(s[1..], true) == Replaced(s[1..])
  {
    DigitTexts(s[0], QuotedFrom(s[1..], true), Replaced(s[1..]));
  }

  lemma SplitAtFirst(s: string)
    requires s != []
    ensures s[0] == ',' ==> Split(s)[0] == "" && Split(s)[1..] == Split(s[1..])
    ensures s[0] != ',' ==> Split(s)[0] != "" && Split(s)[1..] == Split(s[1..])[1..]
  {}

  lemma InSplit(values: seq<string>)
    requires |values| > 0
    ensures "" in values <==> values[0] == "" || "" in values[1..]
  {
    if values[0] != "" && "" in values {
      var i :| 0 <= i < |values| && values[i] == "";
      assert values[1..][i - 1] == "";
    }
  }

  /** The loop quotes as the query does exactly when no number is missing between commas. */
  lemma {:induction false} QuotingsAgreeIff(s: string)
    ensures QuotedFrom(s, false) == Quoted(s) <==> "" !in Split(s)
    ensures QuotedFrom(s, true) == Replaced(s) <==> "" !in Split(s)[1..]
  {
    InSplit(Split(s));
    if s == [] {
      assert |QuotedFrom(s, false)| < |Quoted(s)|;
    } else {
      QuotingsAgreeIff(s[1..]);
      SplitAtFirst(s);
      InSplit(Split(s[1..]));
      if s[0] == ',' { QuotingsAtComma(s); } else { QuotingsAtDigit(s); }
    }
  }

  lemma SamePrefix(p: string, a: string, b: string)
    ensures p + a == p + b <==> a == b
  {
    if p + a == p + b {
      assert a == (p + a)[|p|..] && b == (p + b)[|p|..];
    }
  }

  // ---------------------------------------------------------------- sorting

  /** The order of ORDER BY on text. */
  predicate Leq(a: string, b: string) {
    a == [] || (b != [] && (a[0] < b[0] || (a[0] == b[0] && Leq(a[1..], b[1..]))))
  }

  lemma {:induction false} LeqTotal(a: string, b: string)
    ensures Leq(a, b) || Leq(b, a)
    ensures Leq(a, b) && Leq(b, a) ==> a == b
  {
    if a != [] && b != [] && a[0] == b[0] {
      LeqTotal(a[1..], b[1..]);
      if a[1..] == b[1..] {
        assert a == [a[0]] + a[1..] && b == [b[0]] + b[1..];
      }
    }
  }

  lemma {:induction false} LeqTransitive(a: string, b: string, c: string)
    requires Leq(a, b) && Leq(b, c)
    ensures Leq(a, c)
  {
    if a != [] && a[0] == b[0] == c[0] {
      LeqTransitive(a[1..], b[1..], c[1..]);
    }
  }

  predicate Sorted(values: seq<string>) {
    forall i, j :: 0 <= i < j < |values| ==> Leq(values[i], values[j])
  }

  function Insert(v: string, values: seq<string>): seq<string> {
    if values == [] || Leq(v, values[0]) then [v] + values else [values[0]] + Insert(v, values[1..])
  }

  function Sort(values: seq<string>): seq<string> {
    if values == [] then [] else Insert(values[0], Sort(values[1..]))
  }

  lemma {:induction false} InsertSorts(v: string, values: seq<string>)
    requires Sorted(values)
    ensures Sorted(Insert(v, values)) && multiset(Insert(v, values)) == multiset([v]) + multiset(values)
  {
    if values == [] {
    } else if Leq(v, values[0]) {
      forall w <- values ensures Leq(v, w) {
        if w != values[0] { LeqTransitive(v, values[0], w); }
      }
    } else {
      LeqTotal(v, values[0]);
      InsertSorts(v, values[1..]);
      var rest := Insert(v, values[1..]);
      assert values == [values[0]] + values[1..];
      forall w <- rest ensures Leq(values[0], w) {
        assert w in multiset(rest);
        assert w == v || w in values[1..];
      }
    }
  }

  lemma {:induction false} SortSorts(values: seq<string>)
    ensures Sorted(Sort(values)) && multiset(Sort(values)) == multiset(values)
  {
    if values != [] {
      SortSorts(values[1..]);
      InsertSorts(values[0], Sort(values[1..]));
      assert values == [values[0]] + values[1..];
    }
  }

  lemma SortedHead(a: seq<string>, b: seq<string>)
    requires Sorted(a) && a != [] && b != [] && multiset(a) == multiset(b)
    ensures Leq(a[0], b[0])
  {
    assert b[0] in multiset(a);
    var j :| 0 <= j < |a| && a[j] == b[0];
    LeqTotal(a[0], a[0]);
  }

  lemma SameTails(a: seq<string>, b: seq<string>)
    requires a != [] && b != [] && a[0] == b[0] && multiset(a) == multiset(b)
    ensures multiset(a[1..]) == multiset(b[1..])
  {
    assert a == [a[0]] + a[1..] && b == [b[0]] + b[1..];
    assert multiset(a[1..]) == multiset(a) - multiset{a[0]};
    assert multiset(b[1..]) == multiset(b) - multiset{b[0]};
  }

  lemma {:induction false} SortedIsUnique(a: seq<string>, b: seq<string>)
    requires Sorted(a) && Sorted(b) && multiset(a) == multiset(b)
    ensures a == b
  {
    assert |a| == |multiset(a)| && |b| == |multiset(b)|;
    if a != [] {
      SortedHead(a, b);
      SortedHead(b, a);
      LeqTotal(a[0], b[0]);
      assert a == [a[0]] + a[1..] && b == [b[0]] + b[1..];
      SameTails(a, b);
      SortedIsUnique(a[1..], b[1..]);
    }
  }

  // ---------------------------------------------------------------- the query

  /** The WHERE clause, for a stored telephone; `json` reads the text of an array. */
  predicate QueryMatchedRecipient(json: string -> seq<string>, telephone: string, recipients: string)
    requires |json(Quoted(telephone))| > 0 && |json(QuotedFrom(recipients, false))| > 0
  {
    SortKeeps(json(Quoted(telephone)));
    SortKeeps(json(QuotedFrom(recipients, false)));
    CountOf(telephone) == CountOf(recipients) &&
    Join(Sort(json(Quoted(telephone)))) == Join(Sort(json(QuotedFrom(recipients, false))))
  }

  lemma SortKeeps(values: seq<string>)
    ensures |Sort(values)| == |values|
  {
    SortSorts(values);
    assert |Sort(values)| == |multiset(Sort(values))|;
  }

  /** The query finds the sessions whose numbers are the given ones in any order. */
  lemma MatchIsPermutation(json: string -> seq<string>, stored: seq<string>, given: seq<string>)
    requires IsNumbers(stored) && IsNumbers(given)
    requires json(Quoted(Join(stored))) == Split(Join(stored)) && json(Quoted(Join(given))) == Split(Join(given))
    ensures QuotedFrom(Join(given), false) == Quoted(Join(given))
    ensures QueryMatchedRecipient(json, Join(stored), Join(given)) <==> multiset(stored) == multiset(given)
  {
    SplitJoin(stored);
    SplitJoin(given);
    QuotingsAgreeIff(Join(given));
    CountIsSplitLength(Join(stored));
    CountIsSplitLength(Join(given));
    SortSorts(stored);
    SortSorts(given);
    SortKeeps(stored);
    SortKeeps(given);
    if multiset(stored) == multiset(given) {
      SortedIsUnique(Sort(stored), Sort(given));
      assert |stored| == |multiset(stored)| && |given| == |multiset(given)|;
    } else if Join(Sort(stored)) == Join(Sort(given)) {
      SortedNumbers(stored);
      SortedNumbers(given);
      SplitJoin(Sort(stored));
      SplitJoin(Sort(given));
    }
  }

  lemma SortedNumbers(values: seq<string>)
    requires IsNumbers(values)
    ensures IsNumbers(Sort(values))
  {
    SortSorts(values);
    SortKeeps(values);
    forall v <- Sort(values) ensures v in values {
      assert v in multiset(values);
    }
  }
}
