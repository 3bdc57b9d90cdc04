/**
 The slice of PHP's runtime that the SQLite engine relies on: the values a
 caller can put in an associative array, ordered associative arrays with
 string keys, and the string builtins `implode`, `ltrim`, `rtrim`,
 `strtolower` and `substr` as the engine uses them.
 */
module PhpRuntime {

  /** A PHP value as far as binding cares: an integer or anything else. Floats
      are carried as their text and never computed with. */
  datatype Value =
    | IntV(i: int)
    | FloatV(text: string)
    | StrV(s: string)
    | BoolV(b: bool)
    | NullV

  /** A value that may be PHP's `null`. */
  datatype Option<+T> = None | Some(value: T)

  /** `false`, PHP's failure sentinel, or a value. */
  datatype OrFalse<+T> = Val(value: T) | False

  /** A PHP associative array with string keys, in iteration order. */
  type Entries = seq<(string, Value)>

  /** PHP array keys are unique. */
  predicate DistinctKeys(e: Entries)
  {
    forall i, j :: 0 <= i < j < |e| ==> e[i].0 != e[j].0
  }

  /** `array_keys`. */
  function Keys(e: Entries): (r: seq<string>)
    ensures |r| == |e|
    ensures forall i :: 0 <= i < |e| ==> r[i] == e[i].0
  {
    seq(|e|, i requires 0 <= i < |e| => e[i].0)
  }

  /** `implode(sep, parts)`: the parts with `sep` between consecutive ones. */
  function Join(sep: string, parts: seq<string>): string
  {
    if |parts| == 0 then ""
    else if |parts| == 1 then parts[0]
    else Join(sep, parts[..|parts| - 1]) + sep + parts[|parts| - 1]
  }

  /** Every part followed by `t`, concatenated: what a loop doing
      `$s .= $part . t` leaves behind. */
  function Terminated(parts: seq<string>, t: string): string
  {
    if |parts| == 0 then ""
    else Terminated(parts[..|parts| - 1], t) + parts[|parts| - 1] + t
  }

  /** `ltrim(s, chars)`: PHP reads `chars` as a set of characters and strips
      every leading character in that set, not a prefix string. */
  function LTrim(s: string, chars: set<char>): (r: string)
    ensures |r| <= |s| && r == s[|s| - |r|..]
    ensures forall i :: 0 <= i < |s| - |r| ==> s[i] in chars
    ensures r == [] || r[0] !in chars
  {
    if |s| > 0 && s[0] in chars then LTrim(s[1..], chars) else s
  }

  /** `rtrim(s, chars)`: strips every trailing character in the set `chars`. */
  function RTrim(s: string, chars: set<char>): (r: string)
    ensures |r| <= |s| && r == s[..|r|]
    ensures forall i :: |r| <= i < |s| ==> s[i] in chars
    ensures r == [] || r[|r| - 1] !in chars
  {
    if |s| > 0 && s[|s| - 1] in chars then RTrim(s[..|s| - 1], chars) else s
  }

  /** `strtolower` on one character: ASCII letters only, as in PHP 8.2 and
      later (or any PHP under the C locale). */
  function LowerChar(c: char): char
  {
    if 'A' <= c <= 'Z' then (c as int - 'A' as int + 'a' as int) as char else c
  }

  function ToLower(s: string): (r: string)
    ensures |r| == |s|
    ensures forall i :: 0 <= i < |s| ==> r[i] == LowerChar(s[i])
  {
    seq(|s|, i requires 0 <= i < |s| => LowerChar(s[i]))
  }

  /** `substr(s, 0, n)` for n >= 0: at most the first n characters. */
  function Prefix(s: string, n: nat): (r: string)
    ensures |r| == if |s| < n then |s| else n
    ensures r == s[..|r|]
  {
    if |s| < n then s else s[..n]
  }

  /** Taking the first n characters of a text that begins with an n-character
      string gives back that string. */
  lemma PrefixOfExtension(s: string, rest: string, n: nat)
    requires |s| == n
    ensures Prefix(s + rest, n) == s
  {
    assert (s + rest)[..n] == s;
  }

  /** Lower-casing the first n characters is taking the first n characters
      of the lower-cased text. */
  lemma ToLowerPrefix(s: string, n: nat)
    ensures ToLower(Prefix(s, n)) == Prefix(ToLower(s), n)
  {
  }

  /** Lower-casing twice is lower-casing once. */
  lemma ToLowerIdempotent(s: string)
    ensures ToLower(ToLower(s)) == ToLower(s)
  {
  }

  /** Index of the parts of a join: the first character of a join is the
      first character of its first part. */
  lemma {:induction false} JoinStartsWithFirst(sep: string, parts: seq<string>)
    requires |parts| > 0
    ensures |Join(sep, parts)| >= |parts[0]|
    ensures Join(sep, parts)[..|parts[0]|] == parts[0]
  {
    if |parts| > 1 {
      var init := parts[..|parts| - 1];
      JoinStartsWithFirst(sep, init);
      assert init[0] == parts[0];
      var j := Join(sep, init);
      assert Join(sep, parts) == j + sep + parts[|parts| - 1];
      assert (j + sep + parts[|parts| - 1])[..|parts[0]|] == j[..|parts[0]|];
    }
  }

  /** The last character of a join is the last character of its last part. */
  lemma {:induction false} JoinEndsWithLast(sep: string, parts: seq<string>)
    requires |parts| > 0
    ensures |Join(sep, parts)| >= |parts[|parts| - 1]|
    ensures Join(sep, parts)[|Join(sep, parts)| - |parts[|parts| - 1]|..] == parts[|parts| - 1]
  {
  }

  /** A loop that terminates every part with `t` leaves the join of the parts
      with `t` as separator, plus one trailing `t`. */
  lemma {:induction false} TerminatedIsJoinThenTerminator(parts: seq<string>, t: string)
    requires |parts| > 0
    ensures Terminated(parts, t) == Join(t, parts) + t
  {
    if |parts| > 1 {
      var init := parts[..|parts| - 1];
      TerminatedIsJoinThenTerminator(init, t);
    } else {
      assert parts[..0] == [];
    }
  }

  /** `implode` commutes with prefixing every part: `pre . implode(sep . pre, ks)`
      is the join of the prefixed parts with `sep`. */
  lemma {:induction false} JoinPrefixed(pre: string, sep: string, ks: seq<string>)
    requires |ks| > 0
    ensures pre + Join(sep + pre, ks) == Join(sep, PrefixAll(pre, ks))
  {
    var ps := PrefixAll(pre, ks);
    if |ks| > 1 {
      var init := ks[..|ks| - 1];
      JoinPrefixed(pre, sep, init);
      assert ps[..|ps| - 1] == PrefixAll(pre, init);
      calc {
        pre + Join(sep + pre, ks);
        pre + (Join(sep + pre, init) + (sep + pre) + ks[|ks| - 1]);
        (pre + Join(sep + pre, init)) + sep + (pre + ks[|ks| - 1]);
        Join(sep, PrefixAll(pre, init)) + sep + ps[|ps| - 1];
        Join(sep, ps);
      }
    }
  }

  /** Each string with `pre` in front of it. */
  function PrefixAll(pre: string, ks: seq<string>): (r: seq<string>)
    ensures |r| == |ks|
    ensures forall i :: 0 <= i < |ks| ==> r[i] == pre + ks[i]
  {
    seq(|ks|, i requires 0 <= i < |ks| => pre + ks[i])
  }
}
