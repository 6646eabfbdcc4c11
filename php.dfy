/**
 * The few PHP language operations the controllers rely on: truthiness of request
 * values, `implode`/`explode` on one separator, the `(int)` cast of a string, and
 * keyed assignment into an ordered array.
 */
module Php {
  import opened Wrappers
  import opened Text

  /** `!$v` and `empty($v)` for a request value that is a string or absent (null). */
  function Falsy(v: Option<string>): (falsy: bool)
    ensures v.None? ==> falsy
    ensures v.Some? && v.value == [] ==> falsy
    ensures v.Some? && |v.value| == 1 ==> (falsy <==> v.value[0] == '0')
    ensures v.Some? && |v.value| >= 2 ==> !falsy
  {
    v.None? || v.value == "" || v.value == "0"
  }

  /** implode(sep, parts). */
  function Implode(sep: char, parts: seq<string>): (s: string)
    ensures parts == [] ==> s == ""
    ensures |parts| == 1 ==> s == parts[0]
    ensures |parts| >= 2 ==> |s| > |parts[0]| && s[|parts[0]|] == sep
    decreases |parts|
  {
    if |parts| == 0 then ""
    else if |parts| == 1 then parts[0]
    else parts[0] + [sep] + Implode(sep, parts[1..])
  }

  /** explode(sep, s): the maximal pieces of s between separators; never empty. */
  function Explode(sep: char, s: string): (pieces: seq<string>)
    ensures |pieces| >= 1
    decreases |s|
  {
    if s == [] then [""]
    else
      var rest := Explode(sep, s[1..]);
      if s[0] == sep then [""] + rest else [[s[0]] + rest[0]] + rest[1..]
  }

  lemma {:induction false} ExplodeNoSeparator(sep: char, p: string)
    requires sep !in p
    ensures Explode(sep, p) == [p]
    decreases |p|
  {
    if p != [] {
      assert sep !in p[1..];
      ExplodeNoSeparator(sep, p[1..]);
      assert [p[0]] + p[1..] == p;
    }
  }

  lemma {:induction false} ExplodeFirstPiece(sep: char, p: string, t: string)
    requires sep !in p
    ensures Explode(sep, p + [sep] + t) == [p] + Explode(sep, t)
    decreases |p|
  {
    var s := p + [sep] + t;
    if p == [] {
      assert s[0] == sep && s[1..] == t;
    } else {
      assert s[1..] == p[1..] + [sep] + t;
      assert sep !in p[1..];
      ExplodeFirstPiece(sep, p[1..], t);
      assert [p[0]] + p[1..] == p;
    }
  }

  /** explode undoes implode when no part contains the separator. */
  lemma {:induction false} ExplodeImplode(sep: char, parts: seq<string>)
    requires |parts| >= 1
    requires forall i :: 0 <= i < |parts| ==> sep !in parts[i]
    ensures Explode(sep, Implode(sep, parts)) == parts
    decreases |parts|
  {
    if |parts| == 1 {
      ExplodeNoSeparator(sep, parts[0]);
    } else {
      ExplodeImplode(sep, parts[1..]);
      ExplodeFirstPiece(sep, parts[0], Implode(sep, parts[1..]));
    }
  }

  /** implode of non-empty parts starts with the first part's first character and ends with the last part's last one. */
  lemma {:induction false} ImplodeEnds(sep: char, parts: seq<string>)
    requires |parts| >= 1
    requires forall i :: 0 <= i < |parts| ==> parts[i] != []
    ensures var s := Implode(sep, parts);
      |s| >= 1 && s[0] == parts[0][0] && s[|s| - 1] == parts[|parts| - 1][|parts[|parts| - 1]| - 1]
    decreases |parts|
  {
    if |parts| > 1 {
      ImplodeEnds(sep, parts[1..]);
      assert Implode(sep, parts) == parts[0] + [sep] + Implode(sep, parts[1..]);
    }
  }

  /** The longest prefix of s made of digits. */
  function LeadingDigits(s: string): (r: string)
    ensures |r| <= |s| && r == s[..|r|] && AllDigits(r)
    ensures |r| < |s| ==> !IsDigit(s[|r|])
    decreases |s|
  {
    if s != [] && IsDigit(s[0]) then [s[0]] + LeadingDigits(s[1..]) else ""
  }

  /** `(int) $s`: an optional sign followed by the longest run of digits; 0 when there are none. */
  function IntCast(s: string): (n: int)
    ensures AllDigits(s) ==> n == DigitsValue(s)
    ensures s != [] && s[0] == '-' && AllDigits(s[1..]) ==> n == 0 - DigitsValue(s[1..])
    ensures s == [] || (!IsDigit(s[0]) && s[0] != '-' && s[0] != '+') ==> n == 0
  {
    LeadingDigitsOfDigits(s);
    if s != [] && s[0] == '-' then
      LeadingDigitsOfDigits(s[1..]);
      0 - DigitsValue(LeadingDigits(s[1..]))
    else if s != [] && s[0] == '+' then DigitsValue(LeadingDigits(s[1..]))
    else DigitsValue(LeadingDigits(s))
  }

  /** A text of digits only is its own longest digit prefix. */
  lemma {:induction false} LeadingDigitsOfDigits(s: string)
    ensures AllDigits(s) ==> LeadingDigits(s) == s
    decreases |s|
  {
    if s != [] && IsDigit(s[0]) {
      LeadingDigitsOfDigits(s[1..]);
    }
  }

  /** `(int)` gives back the integer whose decimal text PHP or SQL Server printed. */
  lemma IntCastIntText(n: int)
    ensures IntCast(IntText(n)) == n
  {
    var t := NatText(if n < 0 then -n else n);
    assert LeadingDigits(t) == t;
    NatTextValue(if n < 0 then -n else n);
    if n < 0 {
      assert IntText(n)[1..] == t;
    }
  }

  /** The keys of an ordered PHP array, in order. */
  function Keys<V>(a: seq<(string, V)>): (ks: seq<string>)
    ensures |ks| == |a| && forall i :: 0 <= i < |a| ==> ks[i] == a[i].0
    decreases |a|
  {
    if a == [] then [] else [a[0].0] + Keys(a[1..])
  }

  predicate Distinct(ks: seq<string>)
  {
    forall i, j :: 0 <= i < j < |ks| ==> ks[i] != ks[j]
  }

  /** `$a[$key]`, or None when the key is not set. */
  function Get<V>(a: seq<(string, V)>, key: string): (r: Option<V>)
    ensures r.None? <==> key !in Keys(a)
    decreases |a|
  {
    if a == [] then None
    else if a[0].0 == key then Some(a[0].1)
    else Get(a[1..], key)
  }

  /**
   * `$a[$key] = $v`: an existing key keeps its position and takes the new value,
   * a new key is appended at the end.
   */
  function Assign<V>(a: seq<(string, V)>, key: string, v: V): (r: seq<(string, V)>)
    ensures key in Keys(a) ==> Keys(r) == Keys(a)
    ensures key !in Keys(a) ==> Keys(r) == Keys(a) + [key]
    decreases |a|
  {
    if a == [] then [(key, v)]
    else if a[0].0 == key then [(key, v)] + a[1..]
    else [a[0]] + Assign(a[1..], key, v)
  }

  /** After the assignment the key holds the new value and every other key its old one. */
  lemma {:induction false} AssignGet<V>(a: seq<(string, V)>, key: string, v: V)
    ensures Get(Assign(a, key, v), key) == Some(v)
    ensures forall k :: k != key ==> Get(Assign(a, key, v), k) == Get(a, k)
    decreases |a|
  {
    if a != [] && a[0].0 != key {
      AssignGet(a[1..], key, v);
      assert Assign(a, key, v)[1..] == Assign(a[1..], key, v);
    } else if a != [] {
      assert Assign(a, key, v)[1..] == a[1..];
    }
  }

  /** Assignment never duplicates a key. */
  lemma AssignDistinct<V>(a: seq<(string, V)>, key: string, v: V)
    requires Distinct(Keys(a))
    ensures Distinct(Keys(Assign(a, key, v)))
  {
    var ks := Keys(a);
    if key !in ks {
      var ks' := ks + [key];
      forall i, j | 0 <= i < j < |ks'|
        ensures ks'[i] != ks'[j]
      {
        if j == |ks| {
          assert ks'[i] == ks[i];
        }
      }
    }
  }
}
