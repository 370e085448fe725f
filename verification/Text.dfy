/** The text keys of login and text requests: key=value pairs ended by NUL bytes, and decimal numbers
    (internal/iscsi/params.go; RFC 7143, section 6.1). A byte is written as the character of its value. */
module Text {
  import opened Errors

  const NUL: char := '\0'

  type Pairs = map<string, string>

  /** The pieces of a text between NULs; there is one more piece than there are NULs. */
  function Split(s: string): (parts: seq<string>)
    ensures |parts| > 0
    ensures forall i :: 0 <= i < |parts| ==> NUL !in parts[i]
  {
    if s == "" then [""] else
    var rest := Split(s[1..]);
    if s[0] == NUL then [""] + rest else [[s[0]] + rest[0]] + rest[1..]
  }

  /** The first position of a character, or -1. */
  function IndexByte(s: string, c: char): (i: int)
    ensures i == -1 <==> c !in s
    ensures i != -1 ==> 0 <= i < |s| && s[i] == c && c !in s[..i]
  {
    if s == "" then -1
    else if s[0] == c then 0
    else
      var i := IndexByte(s[1..], c);
      if i == -1 then -1 else assert s[..i + 1] == [s[0]] + s[1..][..i]; i + 1
  }

  /** A piece without an equals sign is skipped; a later piece overrides an earlier one with the same key. */
  function Take(m: Pairs, part: string): Pairs {
    var i := IndexByte(part, '=');
    if i < 0 then m else m[part[..i] := part[i + 1..]]
  }

  function TakeAll(parts: seq<string>): Pairs {
    if parts == [] then map[] else Take(TakeAll(parts[..|parts| - 1]), parts[|parts| - 1])
  }

  function Parse(data: string): Pairs {
    TakeAll(Split(data))
  }

  function Pair(key: string, value: string): string {
    key + "=" + value
  }

  /** The pairs of the listed keys, one after the other. */
  function Serialize(kv: Pairs, order: seq<string>): string
    requires forall k :: k in order ==> k in kv
  {
    if order == [] then "" else Pair(order[0], kv[order[0]]) + [NUL] + Serialize(kv, order[1..])
  }

  /** An order in which a map yields its keys. */
  ghost predicate Listing(order: seq<string>, kv: Pairs) {
    && (forall i, j :: 0 <= i < j < |order| ==> order[i] != order[j])
    && (forall k :: k in order <==> k in kv)
  }

  /** Keys without equals signs, and no NULs. */
  ghost predicate Clean(kv: Pairs) {
    forall k :: k in kv ==> '=' !in k && NUL !in k && NUL !in kv[k]
  }

  lemma {:induction false} SplitFirst(part: string, rest: string)
    requires NUL !in part
    ensures Split(part + [NUL] + rest) == [part] + Split(rest)
  {
    var s := part + [NUL] + rest;
    if part == "" {
      assert s[1..] == rest;
    } else {
      assert s[1..] == part[1..] + [NUL] + rest;
      SplitFirst(part[1..], rest);
      assert [s[0]] + part[1..] == part;
    }
  }

  function PairsOf(kv: Pairs, order: seq<string>): (ps: seq<string>)
    requires forall k :: k in order ==> k in kv
    ensures |ps| == |order| && forall i :: 0 <= i < |ps| ==> ps[i] == Pair(order[i], kv[order[i]])
  {
    seq(|order|, i requires 0 <= i < |order| => Pair(order[i], kv[order[i]]))
  }

  lemma {:induction false} SplitSerialized(kv: Pairs, order: seq<string>)
    requires Clean(kv) && forall k :: k in order ==> k in kv
    ensures Split(Serialize(kv, order)) == PairsOf(kv, order) + [""]
  {
    if order != [] {
      SplitSerialized(kv, order[1..]);
      SplitFirst(Pair(order[0], kv[order[0]]), Serialize(kv, order[1..]));
      assert PairsOf(kv, order) == [Pair(order[0], kv[order[0]])] + PairsOf(kv, order[1..]);
    } else {
      assert PairsOf(kv, order) + [""] == [""];
    }
  }

  lemma TakePair(m: Pairs, key: string, value: string)
    requires '=' !in key
    ensures Take(m, Pair(key, value)) == m[key := value]
  {
    var part := Pair(key, value);
    var i := IndexByte(part, '=');
    assert part[|key|] == '=';
    assert forall j :: 0 <= j < |key| ==> part[j] == key[j];
    assert '=' in part[..|key| + 1];
    assert part[..i] == key && part[i + 1..] == value;
  }

  lemma {:induction false} TakePairs(kv: Pairs, order: seq<string>)
    requires Clean(kv) && (forall k :: k in order ==> k in kv)
    ensures TakeAll(PairsOf(kv, order)) == map k | k in order :: kv[k]
  {
    hide Take, Pair, IndexByte;
    if order != [] {
      var n := |order| - 1;
      var init := order[..n];
      TakePairs(kv, init);
      assert PairsOf(kv, order)[..n] == PairsOf(kv, init);
      TakePair(TakeAll(PairsOf(kv, init)), order[n], kv[order[n]]);
      assert order == init + [order[n]];
      assert (map k | k in order :: kv[k]) == (map k | k in init :: kv[k])[order[n] := kv[order[n]]];
    }
  }

  lemma {:induction false} ParsedClean(parts: seq<string>)
    requires forall i :: 0 <= i < |parts| ==> NUL !in parts[i]
    ensures Clean(TakeAll(parts))
  {
    if parts != [] {
      ParsedClean(parts[..|parts| - 1]);
      var part := parts[|parts| - 1];
      var i := IndexByte(part, '=');
      if i >= 0 {
        assert forall c :: c in part[..i] || c in part[i + 1..] ==> c in part;
      }
    }
  }

  lemma CleanBack(kv: Pairs, order: seq<string>)
    requires Listing(order, kv) && Clean(kv)
    ensures Parse(Serialize(kv, order)) == kv
  {
    SplitSerialized(kv, order);
    TakePairs(kv, order);
    hide Split, Serialize, TakeAll;
    var parts := PairsOf(kv, order) + [""];
    assert parts[..|parts| - 1] == PairsOf(kv, order);
    assert (map k | k in order :: kv[k]) == kv;
  }

  /** Parsing what was serialized gives the map back, whatever order its keys came in, exactly when no key
      contains an equals sign and nothing contains a NUL. */
  lemma ParseSerialize(kv: Pairs, order: seq<string>)
    requires Listing(order, kv)
    ensures Parse(Serialize(kv, order)) == kv <==> Clean(kv)
  {
    if Clean(kv) {
      CleanBack(kv, order);
    } else {
      ParsedClean(Split(Serialize(kv, order)));
      hide Clean;
    }
  }

  // ---------- what is parsed from any text ----------

  /** Pieces put back together with a NUL between each and the next. */
  function Joined(parts: seq<string>): string
    requires parts != []
  {
    if |parts| == 1 then parts[0] else parts[0] + [NUL] + Joined(parts[1..])
  }

  /** The pieces are those of the text: no NUL is in any, and joined they give it back. */
  lemma {:induction false} SplitJoins(s: string)
    ensures Joined(Split(s)) == s
  {
    if s != "" {
      SplitJoins(s[1..]);
      var rest := Split(s[1..]);
      if s[0] == NUL {
        assert ([""] + rest)[1..] == rest;
        assert s == "" + [NUL] + s[1..];
      } else if |rest| > 1 {
        assert ([[s[0]] + rest[0]] + rest[1..])[1..] == rest[1..];
        assert s == [s[0]] + rest[0] + [NUL] + Joined(rest[1..]);
      } else {
        assert s == [s[0]] + rest[0];
      }
    }
  }

  /** A piece gives a key a value: what comes before its first equals sign, and what comes after. */
  predicate Gives(part: string, key: string, value: string) {
    part == key + "=" + value && '=' !in key
  }

  lemma TakeGives(m: Pairs, part: string, key: string)
    ensures (exists value :: Gives(part, key, value)) ==> key in Take(m, part) && Gives(part, key, Take(m, part)[key])
    ensures !(exists value :: Gives(part, key, value)) ==>
              (key in Take(m, part) <==> key in m) && (key in m ==> Take(m, part)[key] == m[key])
  {
    var i := IndexByte(part, '=');
    if i >= 0 {
      var before, after := part[..i], part[i + 1..];
      assert part == before + "=" + after;
      assert Gives(part, before, after);
      forall value | Gives(part, key, value) ensures key == before && value == after {
        FirstEquals(part, key, value, i);
      }
    } else {
      forall value ensures !Gives(part, key, value) {
        if Gives(part, key, value) { GivesEquals(part, key, value); }
      }
    }
  }

  lemma GivesEquals(part: string, key: string, value: string)
    requires Gives(part, key, value)
    ensures |key| < |part| && part[|key|] == '=' && part[..|key|] == key && '=' in part
  {
  }

  lemma FirstEquals(part: string, key: string, value: string, i: nat)
    requires Gives(part, key, value) && i < |part| && part[i] == '=' && '=' !in part[..i]
    ensures key == part[..i] && value == part[i + 1..]
  {
    GivesEquals(part, key, value);
    assert forall j :: 0 <= j < |key| ==> part[..|key|][j] == part[j] == key[j];
    assert forall j :: 0 <= j < i ==> part[j] == part[..i][j] != '=';
  }

  /** Which keys are parsed, and with what value: a key is there exactly when some piece gives it a value, and its value
      is that of the last such piece. Pieces without an equals sign, empty ones among them, give nothing. */
  lemma {:induction false} TakenAre(parts: seq<string>, key: string)
    ensures key in TakeAll(parts) <==> exists i, value :: 0 <= i < |parts| && Gives(parts[i], key, value)
    ensures key in TakeAll(parts) ==>
              exists i :: 0 <= i < |parts| && Gives(parts[i], key, TakeAll(parts)[key])
                && forall j, value :: i < j < |parts| ==> !Gives(parts[j], key, value)
  {
    hide Gives, Take;
    if parts != [] {
      var n := |parts| - 1;
      var init, last := parts[..n], parts[n];
      TakenAre(init, key);
      TakeGives(TakeAll(init), last, key);
      assert forall i :: 0 <= i < n ==> init[i] == parts[i];
      if exists value :: Gives(last, key, value) {
        assert Gives(parts[n], key, TakeAll(parts)[key]);
      } else if key in TakeAll(init) {
        var i :| 0 <= i < n && Gives(init[i], key, TakeAll(init)[key]) && forall j, value :: i < j < n ==> !Gives(init[j], key, value);
        assert Gives(parts[i], key, TakeAll(parts)[key]);
      }
    }
  }

  /** Takes the pieces in turn. */
  method ParseKeyValuePairs(data: string) returns (result: Pairs)
    ensures result == Parse(data)
  {
    result := map[];
    var parts := Split(data);
    for n := 0 to |parts|
      invariant result == TakeAll(parts[..n])
    {
      assert parts[..n + 1][..n] == parts[..n];
      var kv := parts[n];
      if kv == "" { continue; }
      var i := IndexByte(kv, '=');
      if i < 0 { continue; }
      result := result[kv[..i] := kv[i + 1..]];
    }
    assert parts[..|parts|] == parts;
  }

  /** Writes the pairs in whatever order the map yields them. */
  method SerializeKeyValuePairs(kv: Pairs) returns (buf: string)
    ensures exists order :: Listing(order, kv) && buf == Serialize(kv, order)
    ensures Parse(buf) == kv <==> Clean(kv)
  {
    buf := "";
    ghost var order: seq<string> := [];
    var left := kv.Keys;
    while left != {}
      invariant left <= kv.Keys
      invariant forall i, j :: 0 <= i < j < |order| ==> order[i] != order[j]
      invariant forall k :: k in order <==> k in kv && k !in left
      invariant buf == Serialize(kv, order)
      decreases |left|
    {
      var k :| k in left;
      SerializeMore(kv, order, k);
      left := left - {k};
      order := order + [k];
      buf := buf + Pair(k, kv[k]) + [NUL];
    }
    ParseSerialize(kv, order);
  }

  lemma {:induction false} SerializeMore(kv: Pairs, order: seq<string>, k: string)
    requires k in kv && forall j :: j in order ==> j in kv
    ensures Serialize(kv, order + [k]) == Serialize(kv, order) + Pair(k, kv[k]) + [NUL]
  {
    if order == [] {
      assert ([] + [k])[1..] == [];
      assert Serialize(kv, []) == "";
    } else {
      assert (order + [k])[1..] == order[1..] + [k];
      SerializeMore(kv, order[1..], k);
    }
  }

  // ---------- numbers ----------

  const MAX_INT: int := 0x7FFF_FFFF_FFFF_FFFF

  predicate IsDigit(c: char) {
    '0' <= c <= '9'
  }

  predicate Digits(s: string) {
    s != "" && forall i :: 0 <= i < |s| ==> IsDigit(s[i])
  }

  function DigitChar(d: nat): (c: char)
    requires d < 10
    ensures IsDigit(c) && DigitOf(c) == d
  {
    '0' + d as char
  }

  function DigitOf(c: char): nat
    requires IsDigit(c)
  {
    c as int - '0' as int
  }

  /** The value of a text of digits. */
  function Value(s: string): nat
    requires forall i :: 0 <= i < |s| ==> IsDigit(s[i])
  {
    if s == "" then 0 else Value(s[..|s| - 1]) * 10 + DigitOf(s[|s| - 1])
  }

  function Dec(n: nat): (s: string)
    ensures s != "" && forall i :: 0 <= i < |s| ==> IsDigit(s[i])
  {
    if n < 10 then [DigitChar(n)] else Dec(n / 10) + [DigitChar(n % 10)]
  }

  function Itoa(n: int): string {
    if n < 0 then "-" + Dec(-n) else Dec(n)
  }

  /** A decimal number with an optional sign, in the range of a 64-bit integer. */
  function Atoi(s: string): (r: Option<int>)
    ensures r.Some? ==> -MAX_INT - 1 <= r.value <= MAX_INT
  {
    var digits := if s != "" && (s[0] == '-' || s[0] == '+') then s[1..] else s;
    if !Digits(digits) then None else
    var v: int := Value(digits);
    if s[0] == '-' then (if v > MAX_INT + 1 then None else Some(-v))
    else if v > MAX_INT then None else Some(v)
  }

  lemma {:induction false} ValueOfDec(n: nat)
    ensures Value(Dec(n)) == n
  {
    if n >= 10 {
      ValueOfDec(n / 10);
      assert Dec(n)[..|Dec(n)| - 1] == Dec(n / 10);
    } else {
      assert Dec(n)[..0] == "";
    }
  }

  lemma NaturalBack(n: nat)
    requires n <= MAX_INT
    ensures Atoi(Dec(n)) == Some(n)
  {
    ValueOfDec(n);
    var s := Dec(n);
    hide Dec, Value;
    assert IsDigit(s[0]);
  }

  lemma NegativeBack(n: nat)
    requires 0 < n <= MAX_INT + 1
    ensures var r := Atoi("-" + Dec(n)); r.Some? && r.value + n == 0
  {
    ValueOfDec(n);
    var s := "-" + Dec(n);
    hide Dec, Value;
    assert s[0] == '-' && s[1..] == Dec(n);
  }

  /** A 64-bit number is read back from its decimal form. */
  lemma ItoaAtoi(n: int)
    requires -MAX_INT - 1 <= n <= MAX_INT
    ensures Atoi(Itoa(n)) == Some(n)
  {
    hide Atoi, Dec;
    if n < 0 { NegativeBack(-n); } else { NaturalBack(n); }
  }

  // ---------- which texts are numbers ----------

  function Power10(n: nat): nat {
    if n == 0 then 1 else 10 * Power10(n - 1)
  }

  /** The first digit counts for the most. */
  lemma {:induction false} FirstDigit(s: string)
    requires Digits(s)
    ensures Value(s) == (s[0] as int - '0' as int) * Power10(|s| - 1) + Value(s[1..])
  {
    var n := |s| - 1;
    if n > 0 {
      FirstDigit(s[..n]);
      var head, rest := s[..n], s[1..];
      assert head[1..] == rest[..n - 1] && head[0] == s[0];
      assert rest[n - 1] == s[n];
      assert Value(s) == Value(head) * 10 + DigitOf(s[n]) && Value(rest) == Value(rest[..n - 1]) * 10 + DigitOf(s[n]);
      var c, p := s[0] as int - '0' as int, Power10(n - 1);
      assert Power10(n) == 10 * p;
      hide Value, Power10;
      OneMorePlace(c, p, Value(rest[..n - 1]));
    } else {
      assert s[..0] == "" && s[1..] == "";
    }
  }

  lemma OneMorePlace(c: int, p: int, r: int)
    ensures (c * p + r) * 10 == c * (10 * p) + r * 10
  {
  }

  /** A text is a number exactly when it is digits, with at most one sign before them, whose value fits 64 bits. */
  lemma AtoiIs(s: string)
    ensures Digits(s) ==> (Atoi(s).Some? <==> Value(s) <= MAX_INT) && (Atoi(s).Some? ==> Atoi(s).value == Value(s))
    ensures s != "" && s[0] == '+' && Digits(s[1..]) ==>
              (Atoi(s).Some? <==> Value(s[1..]) <= MAX_INT) && (Atoi(s).Some? ==> Atoi(s).value == Value(s[1..]))
    ensures s != "" && s[0] == '-' && Digits(s[1..]) ==>
              (Atoi(s).Some? <==> Value(s[1..]) <= MAX_INT + 1) && (Atoi(s).Some? ==> Atoi(s).value + Value(s[1..]) == 0)
    ensures !Digits(s) && !(s != "" && (s[0] == '+' || s[0] == '-') && Digits(s[1..])) ==> Atoi(s) == None
  {
    hide Value;
    if s != "" && Digits(s) { assert IsDigit(s[0]); }
  }

  /** The decimal form has no leading zero, and a minus sign exactly when the number is negative. */
  lemma {:induction false} NoLeadingZero(n: nat)
    ensures Digits(Dec(n)) && (Dec(n)[0] == '0' <==> n == 0) && (n == 0 ==> Dec(n) == "0")
  {
    if n >= 10 { NoLeadingZero(n / 10); }
  }

  lemma ItoaIs(n: int)
    ensures n >= 0 ==> Digits(Itoa(n)) && Value(Itoa(n)) == n && (Itoa(n)[0] == '0' ==> Itoa(n) == "0")
    ensures n < 0 ==> Itoa(n)[0] == '-' && Digits(Itoa(n)[1..]) && Value(Itoa(n)[1..]) == -n && Itoa(n)[1] != '0'
  {
    var m := if n < 0 then -n else n;
    NoLeadingZero(m);
    ValueOfDec(m);
    hide Dec, Value;
    assert ("-" + Dec(m))[1..] == Dec(m);
  }
}
