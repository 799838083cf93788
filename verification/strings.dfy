/**
 * The JavaScript string operations the console relies on: `trim`, `toLowerCase`,
 * `includes`, `join`, `substring(0, n)`, `split('T')[0]` and `replace('-', ' ')`.
 */
module Strings {

  /** The white-space characters `String.prototype.trim` removes (ASCII set, NBSP, BOM). */
  predicate IsSpace(c: char) {
    c == ' ' || c == '\t' || c == '\n' || c == '\r' || c == '\U{B}' || c == '\U{C}'
    || c == '\U{A0}' || c == '\U{FEFF}'
  }

  /** Drops leading white space. */
  function TrimStart(s: string): (r: string)
    ensures |r| <= |s|
    decreases |s|
  {
    if |s| > 0 && IsSpace(s[0]) then TrimStart(s[1..]) else s
  }

  /** What `TrimStart` removes is white space, and what it keeps is a suffix that starts with none. */
  lemma {:induction false} TrimStartSpec(s: string)
    ensures var r := TrimStart(s);
      && r == s[|s| - |r|..]
      && (r == [] || !IsSpace(r[0]))
      && forall i :: 0 <= i < |s| - |r| ==> IsSpace(s[i])
    decreases |s|
  {
    if |s| > 0 && IsSpace(s[0]) {
      TrimStartSpec(s[1..]);
    }
  }

  /** Drops trailing white space. */
  function TrimEnd(s: string): (r: string)
    ensures |r| <= |s|
    decreases |s|
  {
    if |s| > 0 && IsSpace(s[|s| - 1]) then TrimEnd(s[..|s| - 1]) else s
  }

  /** What `TrimEnd` removes is white space, and what it keeps is a prefix that ends with none. */
  lemma {:induction false} TrimEndSpec(s: string)
    ensures var r := TrimEnd(s);
      && r == s[..|r|]
      && (r == [] || !IsSpace(r[|r| - 1]))
      && forall i :: |r| <= i < |s| ==> IsSpace(s[i])
    decreases |s|
  {
    if |s| > 0 && IsSpace(s[|s| - 1]) {
      TrimEndSpec(s[..|s| - 1]);
    }
  }

  /** `s.trim()`. */
  function Trim(s: string): string {
    TrimEnd(TrimStart(s))
  }

  /** `!s.trim()`: the field is empty or holds only white space. */
  predicate IsBlank(s: string) {
    Trim(s) == ""
  }

  /** A string is blank exactly when every character of it is white space. */
  lemma BlankIffAllSpace(s: string)
    ensures IsBlank(s) <==> forall i :: 0 <= i < |s| ==> IsSpace(s[i])
  {
    var t := TrimStart(s);
    TrimStartSpec(s);
    TrimEndSpec(t);
    if t != [] {
      assert t[0] == s[|s| - |t|];
    }
  }

  /** `toLowerCase` of one character (ASCII letters only). */
  function LowerChar(c: char): char {
    if 'A' <= c <= 'Z' then (c as int + 32) as char else c
  }

  /** `s.toLowerCase()`. */
  function Lower(s: string): (r: string)
    ensures |r| == |s|
    ensures forall i :: 0 <= i < |s| ==> r[i] == LowerChar(s[i])
  {
    seq(|s|, i requires 0 <= i < |s| => LowerChar(s[i]))
  }

  /** `pattern` occurs in `text` starting at position `i`. */
  predicate OccursAt(text: string, pattern: string, i: nat) {
    i + |pattern| <= |text| && text[i..i + |pattern|] == pattern
  }

  /** `text.includes(pattern)`. */
  predicate Contains(text: string, pattern: string) {
    exists i: nat | i <= |text| :: OccursAt(text, pattern, i)
  }

  /** Every string contains itself and the empty string; a longer pattern is never contained. */
  lemma ContainsBasics(text: string, pattern: string)
    ensures Contains(text, "")
    ensures Contains(text, text)
    ensures Contains(text, pattern) ==> |pattern| <= |text|
  {
    assert OccursAt(text, "", 0);
    assert OccursAt(text, text, 0);
  }

  /** A string contains whatever a part of it contains. */
  lemma ContainsInPart(a: string, b: string, pattern: string)
    requires Contains(a, pattern) || Contains(b, pattern)
    ensures Contains(a + b, pattern)
  {
    if Contains(a, pattern) {
      var i: nat :| i <= |a| && OccursAt(a, pattern, i);
      assert (a + b)[i..i + |pattern|] == a[i..i + |pattern|];
      assert OccursAt(a + b, pattern, i);
    } else {
      var i: nat :| i <= |b| && OccursAt(b, pattern, i);
      assert (a + b)[|a| + i..|a| + i + |pattern|] == b[i..i + |pattern|];
      assert OccursAt(a + b, pattern, |a| + i);
    }
  }

  /** Text found inside a part of a text is found in the text. */
  lemma ContainsTransitive(text: string, part: string, pattern: string)
    requires Contains(text, part) && Contains(part, pattern)
    ensures Contains(text, pattern)
  {
    var i: nat :| i <= |text| && OccursAt(text, part, i);
    var j: nat :| j <= |part| && OccursAt(part, pattern, j);
    forall t | 0 <= t < |pattern| ensures text[i + j + t] == pattern[t] {
      assert part[j + t] == pattern[t];
      assert text[i + (j + t)] == part[j + t];
    }
    assert text[i + j..i + j + |pattern|] == pattern;
    assert OccursAt(text, pattern, i + j);
  }

  /** `items.join(sep)`. */
  function Join(items: seq<string>, sep: string): (r: string)
  {
    if |items| == 0 then ""
    else if |items| == 1 then items[0]
    else items[0] + sep + Join(items[1..], sep)
  }

  /** Joining keeps every item: each one is found in the joined text. */
  lemma {:induction false} JoinKeepsItems(items: seq<string>, sep: string, k: nat)
    requires k < |items|
    ensures Contains(Join(items, sep), items[k])
  {
    if |items| == 1 {
      ContainsBasics(items[0], items[0]);
    } else if k == 0 {
      ContainsBasics(items[0], items[0]);
      ContainsInPart(items[0], sep, items[0]);
      ContainsInPart(items[0] + sep, Join(items[1..], sep), items[0]);
    } else {
      JoinKeepsItems(items[1..], sep, k - 1);
      ContainsInPart(items[0] + sep, Join(items[1..], sep), items[k]);
    }
  }

  /** Length of a join: the items plus one separator between each neighbouring pair. */
  lemma {:induction false} JoinLength(items: seq<string>, sep: string)
    requires |items| > 0
    ensures |Join(items, sep)| == TotalLength(items) + (|items| - 1) * |sep|
  {
    if |items| > 1 {
      JoinLength(items[1..], sep);
    }
  }

  /** `s.split(c)` for a one-character separator: the pieces between the occurrences of `c`. */
  function Split(s: string, c: char): (r: seq<string>)
    ensures |r| >= 1
    decreases |s|
  {
    var k := IndexOf(s, c);
    if k == |s| then [s] else [s[..k]] + Split(s[k + 1..], c)
  }

  /** A join avoids a character that neither the items nor the separator contain. */
  lemma {:induction false} JoinAvoids(items: seq<string>, sep: string, c: char)
    requires c !in sep
    requires forall i :: 0 <= i < |items| ==> c !in items[i]
    ensures c !in Join(items, sep)
  {
    if |items| > 1 {
      JoinAvoids(items[1..], sep, c);
    }
  }

  /** Splitting text joined on a character the items do not contain gives the items back. */
  lemma {:induction false} SplitJoin(items: seq<string>, c: char)
    requires |items| > 0
    requires forall i :: 0 <= i < |items| ==> c !in items[i]
    ensures Split(Join(items, [c]), c) == items
  {
    if |items| == 1 {
      assert IndexOf(items[0], c) == |items[0]|;
    } else {
      var rest := Join(items[1..], [c]);
      var s := items[0] + [c] + rest;
      assert Join(items, [c]) == s;
      var k := IndexOf(s, c);
      assert s[|items[0]|] == c;
      assert k == |items[0]|;
      assert s[..k] == items[0];
      assert s[k + 1..] == rest;
      SplitJoin(items[1..], c);
    }
  }

  /** Sum of the lengths of the items. */
  function TotalLength(items: seq<string>): nat {
    if |items| == 0 then 0 else |items[0]| + TotalLength(items[1..])
  }

  /** A UTF-16 code unit, the element JavaScript strings are made of. */
  type Unit = x: int | 0 <= x < 0x1_0000

  /** The code units of one character: a surrogate pair for a character above U+FFFF. */
  function Encode(c: char): (u: seq<Unit>)
    ensures |u| == (if c as int < 0x1_0000 then 1 else 2)
  {
    var v := c as int;
    if v < 0x1_0000 then [v]
    else [0xD800 + (v - 0x1_0000) / 0x400, 0xDC00 + (v - 0x1_0000) % 0x400]
  }

  /** The JavaScript string a Dafny string stands for: its UTF-16 code units. */
  function Utf16(s: string): seq<Unit> {
    if s == [] then [] else Encode(s[0]) + Utf16(s[1..])
  }

  /** The number of code units of one character: 2 above U+FFFF, else 1. */
  function Width(c: char): nat {
    if c as int < 0x1_0000 then 1 else 2
  }

  /** `s.length`: JavaScript counts code units, so a character above U+FFFF counts twice. */
  function Utf16Length(s: string): nat {
    if s == [] then 0 else Width(s[0]) + Utf16Length(s[1..])
  }

  /** The length JavaScript reports is the length of the encoding. */
  lemma {:induction false} Utf16LengthIsEncodingLength(s: string)
    ensures Utf16Length(s) == |Utf16(s)|
  {
    if s != [] {
      Utf16LengthIsEncodingLength(s[1..]);
    }
  }

  /** Encoding a concatenation concatenates the encodings. */
  lemma {:induction false} Utf16Append(a: string, b: string)
    ensures Utf16(a + b) == Utf16(a) + Utf16(b)
  {
    if a == [] {
      assert a + b == b;
    } else {
      assert (a + b)[0] == a[0];
      assert (a + b)[1..] == a[1..] + b;
      Utf16Append(a[1..], b);
      calc {
        Utf16(a + b);
        Encode(a[0]) + Utf16(a[1..] + b);
        Encode(a[0]) + (Utf16(a[1..]) + Utf16(b));
        (Encode(a[0]) + Utf16(a[1..])) + Utf16(b);
      }
    }
  }

  /**
   * `.length` counts each character once for text within the Basic Multilingual Plane, and
   * never fewer than the characters nor more than twice as many: it equals the character
   * count exactly when no character lies above U+FFFF, and twice the character count exactly
   * when every character does, as an emoji does.
   */
  lemma {:induction false} Utf16LengthBounds(s: string)
    ensures |s| <= Utf16Length(s) <= 2 * |s|
    ensures (forall i :: 0 <= i < |s| ==> s[i] as int < 0x1_0000) <==> Utf16Length(s) == |s|
    ensures (forall i :: 0 <= i < |s| ==> s[i] as int >= 0x1_0000) <==> Utf16Length(s) == 2 * |s|
  {
    if s != [] {
      Utf16LengthBounds(s[1..]);
      assert forall i :: 1 <= i < |s| ==> s[1..][i - 1] == s[i];
      assert forall i :: 0 <= i < |s[1..]| ==> s[1..][i] == s[i + 1];
    }
  }

  /** Within the Basic Multilingual Plane, the first `n` code units are the first `n` characters. */
  lemma Utf16PrefixOfBmp(s: string, n: nat)
    requires n <= |s|
    requires forall i :: 0 <= i < n ==> s[i] as int < 0x1_0000
    ensures n <= |Utf16(s)| && Utf16(s)[..n] == Utf16(s[..n])
  {
    var head, tail := s[..n], s[n..];
    assert s == head + tail;
    Utf16Append(head, tail);
    assert forall i :: 0 <= i < |head| ==> head[i] == s[i];
    Utf16LengthBounds(head);
    Utf16LengthIsEncodingLength(head);
  }

  /**
   * The table preview of a long text: `s.substring(0, max)` followed by `'...'` exactly
   * when `s.length > max`, both counted in code units, so the cut may fall inside a
   * surrogate pair.
   */
  function Preview(s: string, max: nat): (r: seq<Unit>)
    ensures Utf16Length(s) <= max ==> r == Utf16(s)
    ensures Utf16Length(s) > max ==> |r| == max + 3 && r[max..] == Utf16("...")
  {
    Utf16LengthIsEncodingLength(s);
    var u := Utf16(s);
    if |u| > max then u[..max] + Utf16("...") else u
  }

  /** The preview never exceeds `max + 3` code units and always starts like the text. */
  lemma PreviewBounded(s: string, max: nat)
    ensures Utf16Length(s) == |Utf16(s)|
    ensures |Preview(s, max)| <= max + 3
    ensures var n := if Utf16Length(s) < max then Utf16Length(s) else max;
      Preview(s, max)[..n] == Utf16(s)[..n]
  {
    Utf16LengthIsEncodingLength(s);
  }

  /** `s.split('T')[0]`: the part of an ISO date-time before the first `'T'`. */
  function DatePart(s: string): (r: string)
    ensures |r| <= |s| && r == s[..|r|]
    ensures forall i :: 0 <= i < |r| ==> r[i] != 'T'
    ensures |r| < |s| ==> s[|r|] == 'T'
  {
    if |s| == 0 || s[0] == 'T' then "" else [s[0]] + DatePart(s[1..])
  }

  /** A plain date with no time part is kept whole. */
  lemma DatePartOfPlainDate(s: string)
    requires forall i :: 0 <= i < |s| ==> s[i] != 'T'
    ensures DatePart(s) == s
  {
  }

  /** The date part of `date + "T" + time` is `date` when `date` holds no `'T'`. */
  lemma {:induction false} DatePartOfDateTime(date: string, time: string)
    requires forall i :: 0 <= i < |date| ==> date[i] != 'T'
    ensures DatePart(date + "T" + time) == date
  {
    if |date| > 0 {
      assert (date + "T" + time)[1..] == date[1..] + "T" + time;
      DatePartOfDateTime(date[1..], time);
    }
  }

  /** `s.replace(from, to)` for a one-character pattern: only the FIRST occurrence is replaced. */
  function ReplaceFirst(s: string, from: char, to: char): (r: string)
  {
    if |s| == 0 then ""
    else if s[0] == from then [to] + s[1..]
    else [s[0]] + ReplaceFirst(s[1..], from, to)
  }

  /** Position of the first occurrence of `c`, or `|s|` when absent. */
  function IndexOf(s: string, c: char): (k: nat)
    ensures k <= |s|
    ensures forall i :: 0 <= i < k ==> s[i] != c
    ensures k < |s| ==> s[k] == c
  {
    if |s| == 0 then 0 else if s[0] == c then 0 else 1 + IndexOf(s[1..], c)
  }

  /** `ReplaceFirst` changes exactly the first occurrence and nothing else. */
  lemma {:induction false} ReplaceFirstSpec(s: string, from: char, to: char)
    ensures |ReplaceFirst(s, from, to)| == |s|
    ensures var k := IndexOf(s, from);
      forall i :: 0 <= i < |s| ==> ReplaceFirst(s, from, to)[i] == (if i == k then to else s[i])
  {
    if |s| > 0 && s[0] != from {
      ReplaceFirstSpec(s[1..], from, to);
    }
  }
}
