/**
  The ECMAScript string built-ins that the storm tracker relies on:
  `String.prototype.includes`, `toLowerCase` (on ASCII letters), `trim`,
  `split` on a one-character separator and `Array.prototype.join`, plus the
  `x || d` default of a possibly absent string.
*/
module JsStrings {
  import opened Wrappers

  /** `x || d` for a string property: an absent or empty string is falsy. */
  function OrDefault(x: Option<string>, d: string): (r: string)
    ensures r == d <==> (x == None || x == Some("") || x == Some(d))
    ensures x.Some? && x.value != "" ==> r == x.value
  {
    match x
    case Some(s) => if s != "" then s else d
    case None => d
  }

  // ---------------------------------------------------------------------------
  // includes

  /** `hay.includes(needle)`, scanning start positions left to right. */
  function Includes(hay: string, needle: string): bool
    decreases |hay|
  {
    if |needle| > |hay| then false
    else if hay[..|needle|] == needle then true
    else Includes(hay[1..], needle)
  }

  /** The reference meaning of `includes`: `needle` occurs at some offset of `hay`. */
  ghost predicate OccursAt(hay: string, needle: string, i: int) {
    0 <= i && i + |needle| <= |hay| && hay[i..i + |needle|] == needle
  }

  lemma {:induction false} IncludesIff(hay: string, needle: string)
    ensures Includes(hay, needle) <==> exists i :: OccursAt(hay, needle, i)
    decreases |hay|
  {
    if |needle| > |hay| {
    } else if hay[..|needle|] == needle {
      assert OccursAt(hay, needle, 0);
    } else {
      IncludesIff(hay[1..], needle);
      if Includes(hay[1..], needle) {
        var i :| OccursAt(hay[1..], needle, i);
        assert hay[1..][i..i + |needle|] == hay[i + 1..i + 1 + |needle|];
        assert OccursAt(hay, needle, i + 1);
      } else {
        forall i | OccursAt(hay, needle, i) ensures false {
          if i != 0 {
            assert hay[1..][i - 1..i - 1 + |needle|] == hay[i..i + |needle|];
            assert OccursAt(hay[1..], needle, i - 1);
          }
        }
      }
    }
  }

  /** An occurrence at a known offset makes `includes` true. */
  lemma IncludesAt(hay: string, needle: string, i: int)
    requires OccursAt(hay, needle, i)
    ensures Includes(hay, needle)
  {
    IncludesIff(hay, needle);
  }

  // ---------------------------------------------------------------------------
  // toLowerCase

  function LowerChar(c: char): (d: char)
    ensures 'A' <= c <= 'Z' ==> 'a' <= d <= 'z' && d as int - c as int == 32
    ensures !('A' <= c <= 'Z') ==> d == c
  {
    if 'A' <= c <= 'Z' then (c as int + 32) as char else c
  }

  /** `s.toLowerCase()` restricted to the ASCII letters. */
  function ToLower(s: string): (r: string)
    ensures |r| == |s|
    ensures forall i :: 0 <= i < |s| ==> r[i] == LowerChar(s[i])
  {
    if s == [] then [] else [LowerChar(s[0])] + ToLower(s[1..])
  }

  // ---------------------------------------------------------------------------
  // trim

  /** WhiteSpace and LineTerminator code points of ECMA-262 (sections 11.2 and 11.3 of the 10th edition, 2019). */
  predicate IsJsSpace(c: char) {
    c == '\t' || c == '\n' || c == '\U{000B}' || c == '\U{000C}' || c == '\r' || c == ' '
    || c == '\U{00A0}' || c == '\U{1680}' || ('\U{2000}' <= c <= '\U{200A}')
    || c == '\U{2028}' || c == '\U{2029}' || c == '\U{202F}' || c == '\U{205F}'
    || c == '\U{3000}' || c == '\U{FEFF}'
  }

  ghost predicate AllSpace(s: string) {
    forall i :: 0 <= i < |s| ==> IsJsSpace(s[i])
  }

  /** `s` without its leading white space. */
  function TrimStart(s: string): string {
    if s != [] && IsJsSpace(s[0]) then TrimStart(s[1..]) else s
  }

  /** `s` without its trailing white space. */
  function TrimEnd(s: string): string {
    if s != [] && IsJsSpace(s[|s| - 1]) then TrimEnd(s[..|s| - 1]) else s
  }

  /** `s.trim()`. */
  function Trim(s: string): string {
    TrimEnd(TrimStart(s))
  }

  lemma {:induction false} TrimStartSpec(s: string)
    ensures var r := TrimStart(s);
      && |r| <= |s| && r == s[|s| - |r|..]
      && AllSpace(s[..|s| - |r|])
      && (r == [] || !IsJsSpace(r[0]))
    decreases |s|
  {
    if s != [] && IsJsSpace(s[0]) {
      TrimStartSpec(s[1..]);
      var r := TrimStart(s[1..]);
      assert s[..|s| - |r|] == [s[0]] + s[1..][..|s[1..]| - |r|];
    }
  }

  lemma {:induction false} TrimEndSpec(s: string)
    ensures var r := TrimEnd(s);
      && |r| <= |s| && r == s[..|r|]
      && AllSpace(s[|r|..])
      && (r == [] || !IsJsSpace(r[|r| - 1]))
    decreases |s|
  {
    if s != [] && IsJsSpace(s[|s| - 1]) {
      TrimEndSpec(s[..|s| - 1]);
      var r := TrimEnd(s[..|s| - 1]);
      assert s[|r|..] == s[..|s| - 1][|r|..] + [s[|s| - 1]];
    }
  }

  /** The trim is the middle part of `s` left after dropping white space at both ends, and it neither starts nor ends with white space. */
  lemma TrimSpec(s: string)
    ensures exists i, j :: 0 <= i <= j <= |s| && Trim(s) == s[i..j] && AllSpace(s[..i]) && AllSpace(s[j..])
    ensures Trim(s) == [] || (!IsJsSpace(Trim(s)[0]) && !IsJsSpace(Trim(s)[|Trim(s)| - 1]))
  {
    var t := TrimStart(s);
    TrimStartSpec(s);
    TrimEndSpec(t);
    var r := TrimEnd(t);
    var i := |s| - |t|;
    assert r == s[i..i + |r|];
    assert s[i + |r|..] == t[|r|..];
  }

  /** A string that neither starts nor ends with white space is its own trim. */
  lemma TrimUnchanged(s: string)
    requires s == [] || (!IsJsSpace(s[0]) && !IsJsSpace(s[|s| - 1]))
    ensures Trim(s) == s
  {
  }

  /** Trimming is idempotent, so a value the resolver accepts is already trimmed. */
  lemma TrimIdempotent(s: string)
    ensures Trim(Trim(s)) == Trim(s)
  {
    TrimSpec(s);
    TrimUnchanged(Trim(s));
  }

  // ---------------------------------------------------------------------------
  // split and join

  /** `s.split(c)` for a one-character separator `c`. */
  function Split(s: string, c: char): (parts: seq<string>)
    ensures |parts| >= 1
    decreases |s|
  {
    if s == [] then [""]
    else
      var rest := Split(s[1..], c);
      if s[0] == c then [""] + rest
      else [[s[0]] + rest[0]] + rest[1..]
  }

  /** The first character of `s` either opens a new empty part or extends the first part. */
  lemma SplitHead(s: string, c: char)
    requires s != []
    ensures Split(s, c) ==
      if s[0] == c then [""] + Split(s[1..], c) else [[s[0]] + Split(s[1..], c)[0]] + Split(s[1..], c)[1..]
  {
  }

  /** No part of a split contains the separator. */
  lemma {:induction false} SplitPartsFree(s: string, c: char)
    ensures forall k :: 0 <= k < |Split(s, c)| ==> c !in Split(s, c)[k]
    decreases |s|
  {
    if s != [] {
      SplitPartsFree(s[1..], c);
    }
  }

  /** `parts.join(sep)`. */
  function Join(parts: seq<string>, sep: string): string
  {
    if |parts| == 0 then ""
    else if |parts| == 1 then parts[0]
    else parts[0] + sep + Join(parts[1..], sep)
  }

  /** Number of occurrences of `c` in `s`. */
  function Count(s: string, c: char): nat
  {
    if s == [] then 0 else (if s[0] == c then 1 else 0) + Count(s[1..], c)
  }

  /** A reference definition: every `c` of `s` replaced by `sep`. */
  function ReplaceChar(s: string, c: char, sep: string): string
  {
    if s == [] then "" else (if s[0] == c then sep else [s[0]]) + ReplaceChar(s[1..], c, sep)
  }

  /** Gluing the first part onto a join of more parts. */
  lemma JoinCons(x: string, rest: seq<string>, sep: string)
    requires |rest| >= 1
    ensures Join([x] + rest, sep) == x + sep + Join(rest, sep)
  {
    assert ([x] + rest)[1..] == rest;
  }

  /** Prepending a character to the first part prepends it to the join. */
  lemma JoinPrependChar(ch: char, rest: seq<string>, sep: string)
    requires |rest| >= 1
    ensures Join([[ch] + rest[0]] + rest[1..], sep) == [ch] + Join(rest, sep)
  {
    if |rest| == 1 {
    } else {
      JoinCons([ch] + rest[0], rest[1..], sep);
      JoinCons(rest[0], rest[1..], sep);
      assert [rest[0]] + rest[1..] == rest;
    }
  }

  /** Joining the parts of a split with any `sep` replaces each separator by `sep`. */
  lemma {:induction false} JoinSplitReplaces(s: string, c: char, sep: string)
    ensures Join(Split(s, c), sep) == ReplaceChar(s, c, sep)
    decreases |s|
  {
    if s != [] {
      JoinSplitReplaces(s[1..], c, sep);
      JoinSplitStep(s, c, sep);
    }
  }

  lemma JoinSplitStep(s: string, c: char, sep: string)
    requires s != []
    requires Join(Split(s[1..], c), sep) == ReplaceChar(s[1..], c, sep)
    ensures Join(Split(s, c), sep) == ReplaceChar(s, c, sep)
  {
    SplitHead(s, c);
    if s[0] == c {
      JoinCons("", Split(s[1..], c), sep);
    } else {
      JoinPrependChar(s[0], Split(s[1..], c), sep);
    }
  }

  lemma {:induction false} ReplaceSelf(s: string, c: char)
    ensures ReplaceChar(s, c, [c]) == s
    decreases |s|
  {
    if s != [] {
      ReplaceSelf(s[1..], c);
    }
  }

  /** Round trip: joining a split with its own separator gives back the string. */
  lemma JoinSplitRoundTrip(s: string, c: char)
    ensures Join(Split(s, c), [c]) == s
  {
    JoinSplitReplaces(s, c, [c]);
    ReplaceSelf(s, c);
  }

  /** A split has one part more than there are separators. */
  lemma {:induction false} SplitLength(s: string, c: char)
    ensures |Split(s, c)| == Count(s, c) + 1
    decreases |s|
  {
    if s != [] {
      SplitLength(s[1..], c);
    }
  }
}
