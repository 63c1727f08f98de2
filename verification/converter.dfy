/**
 * The interactive colour converter: each input line is normalised to a
 * six-digit hex key and looked up in a fixed table of map colours.  Reading
 * standard input and the clipboard copy are left out; a session is the list
 * of lines it reads and the list of lines it prints in answer.
 */
module Converter {
  import opened Optional
  import opened PyText

  /** The entries of `COLOR_MAP` in the order written: an in-game colour (six
      hex digits) and its map colour (eight hex digits, the last two the alpha). */
  const Table: seq<(nat, nat)> := [
    (0x513b3b, 0x963333ff),
    (0x51413b, 0x964c33ff),
    (0x4a4137, 0x744d27ff),
    (0x4a4637, 0x746027ff),
    (0x404434, 0x49571dff),
    (0x3e4535, 0x3f5e1fff),
    (0x3a4535, 0x2f5e1fff),
    (0x364736, 0x206320ff),
    (0x36473a, 0x206332ff),
    (0x354542, 0x1f5e4fff),
    (0x354545, 0x1f5e5eff),
    (0x354245, 0x1f4e5eff),
    (0x39444d, 0x2c5885ff),
    (0x393f4d, 0x2c4285ff),
    (0x3f3f59, 0x4141c4ff),
    (0x463f59, 0x6241c4ff),
    (0x4a3c54, 0x7038a8ff),
    (0x4f3c54, 0x8c38a8ff),
    (0x4f394e, 0x8a2d8aff),
    (0x4f394a, 0x8a2d74ff),
    (0x503a46, 0x913061ff),
    (0x503a40, 0x913048ff),
    (0x4d4d4c, 0x808080ff),
    (0x464646, 0x616161ff),
    (0x434342, 0x525252ff),
    (0x3f3f3f, 0x424242ff),
    (0x3b3b3b, 0x333333ff)
  ]

  /** The reply for a key the table does not have. */
  const NotFound: string := "\U{5909}\U{63DB}\U{5148}\U{306A}\U{3057}\U{3002}"

  predicate IsLowerHex(c: char) {
    '0' <= c <= '9' || 'a' <= c <= 'f'
  }

  predicate IsLowerHexString(s: string) {
    forall i :: 0 <= i < |s| ==> IsLowerHex(s[i])
  }

  function Pow16(w: nat): (p: nat)
    ensures p > 0
  {
    if w == 0 then 1 else 16 * Pow16(w - 1)
  }

  function HexDigit(d: nat): (c: char)
    requires d < 16
    ensures IsLowerHex(c)
  {
    if d < 10 then ('0' as int + d) as char else ('a' as int + d - 10) as char
  }

  function HexDigitValue(c: char): (d: nat)
    requires IsLowerHex(c)
    ensures d < 16 && HexDigit(d) == c
  {
    if c <= '9' then c as int - '0' as int else c as int - 'a' as int + 10
  }

  /** The last `w` hex digits of `n`, zero-padded and in lower case: how the
      table spells its colours. */
  function Hex(n: nat, w: nat): (s: string)
    ensures |s| == w && IsLowerHexString(s)
  {
    if w == 0 then "" else Hex(n / 16, w - 1) + [HexDigit(n % 16)]
  }

  /** The number a string of lower-case hex digits denotes. */
  function HexValue(s: string): nat
    requires IsLowerHexString(s)
  {
    if s == [] then 0 else 16 * HexValue(s[..|s| - 1]) + HexDigitValue(s[|s| - 1])
  }

  /** Reading back the spelled digits gives the number, when it fits. */
  lemma {:induction false} HexRoundTrip(n: nat, w: nat)
    requires n < Pow16(w)
    ensures HexValue(Hex(n, w)) == n
  {
    if w > 0 {
      HexRoundTrip(n / 16, w - 1);
      var s := Hex(n, w);
      assert s[..w - 1] == Hex(n / 16, w - 1);
    }
  }

  lemma Pow16Values()
    ensures Pow16(6) == 0x100_0000 && Pow16(8) == 0x1_0000_0000
  {
  }

  /** Below `16^w`, different numbers are spelled differently. */
  lemma HexInjective(n1: nat, n2: nat, w: nat)
    requires n1 < Pow16(w) && n2 < Pow16(w)
    ensures Hex(n1, w) == Hex(n2, w) ==> n1 == n2
  {
    HexRoundTrip(n1, w);
    HexRoundTrip(n2, w);
  }

  predicate KeysApart(t: seq<(nat, nat)>) {
    forall i, j :: 0 <= i < j < |t| ==> t[i].0 != t[j].0
  }

  /** Keys fit in six hex digits (`16^6`), values in eight (`16^8`). */
  predicate FitsDigits(t: seq<(nat, nat)>) {
    forall i :: 0 <= i < |t| ==> t[i].0 < 0x100_0000 && t[i].1 < 0x1_0000_0000
  }

  /** A Python dict display: the entries in order, a later key overwriting an
      earlier one. */
  function Dict(t: seq<(nat, nat)>): (m: map<string, string>)
    ensures forall k :: k in m ==> |k| == 6 && IsLowerHexString(k)
    ensures forall k :: k in m ==> |m[k]| == 8 && IsLowerHexString(m[k])
  {
    if t == [] then map[]
    else Dict(t[..|t| - 1])[Hex(t[|t| - 1].0, 6) := Hex(t[|t| - 1].1, 8)]
  }

  /** Every key of the dict comes from an entry of the display. */
  lemma {:induction false} DictKeyListed(t: seq<(nat, nat)>, k: string)
    requires k in Dict(t)
    ensures exists i :: 0 <= i < |t| && Hex(t[i].0, 6) == k
  {
    var n := |t| - 1;
    if k != Hex(t[n].0, 6) {
      DictKeyListed(t[..n], k);
      var i :| 0 <= i < n && Hex(t[..n][i].0, 6) == k;
      assert t[i] == t[..n][i];
    }
  }

  /** With keys apart, every entry of the display is in the dict, unchanged. */
  lemma {:induction false} DictHasEntry(t: seq<(nat, nat)>, i: nat)
    requires KeysApart(t) && FitsDigits(t) && i < |t|
    ensures Hex(t[i].0, 6) in Dict(t) && Dict(t)[Hex(t[i].0, 6)] == Hex(t[i].1, 8)
  {
    var n := |t| - 1;
    if i < n {
      var front := t[..n];
      assert front[i] == t[i];
      assert KeysApart(front) && FitsDigits(front);
      DictHasEntry(front, i);
      Pow16Values();
      HexInjective(t[i].0, t[n].0, 6);
    }
  }

  /** With keys apart, the dict holds every entry of the display and nothing else. */
  lemma DictEntries(t: seq<(nat, nat)>)
    requires KeysApart(t) && FitsDigits(t)
    ensures forall k :: k in Dict(t) <==> exists i :: 0 <= i < |t| && Hex(t[i].0, 6) == k
    ensures forall i :: 0 <= i < |t| ==> Dict(t)[Hex(t[i].0, 6)] == Hex(t[i].1, 8)
  {
    forall k | k in Dict(t)
      ensures exists i :: 0 <= i < |t| && Hex(t[i].0, 6) == k
    {
      DictKeyListed(t, k);
    }
    forall i | 0 <= i < |t|
      ensures Hex(t[i].0, 6) in Dict(t) && Dict(t)[Hex(t[i].0, 6)] == Hex(t[i].1, 8)
    {
      DictHasEntry(t, i);
    }
  }

  /** Where each key sits in the table (-1 when absent).  The literals repeat
      the table's on purpose: a position function listed entry by entry lets
      distinctness be checked one entry at a time, where a search over the
      table is too costly to prove; `KeyPositions` ties every copy back to
      `Table`, so a mismatch fails verification. */
  function KeyPosition(n: nat): int {
    if n == 0x513b3b then 0
    else if n == 0x51413b then 1
    else if n == 0x4a4137 then 2
    else if n == 0x4a4637 then 3
    else if n == 0x404434 then 4
    else if n == 0x3e4535 then 5
    else if n == 0x3a4535 then 6
    else if n == 0x364736 then 7
    else if n == 0x36473a then 8
    else if n == 0x354542 then 9
    else if n == 0x354545 then 10
    else if n == 0x354245 then 11
    else if n == 0x39444d then 12
    else if n == 0x393f4d then 13
    else if n == 0x3f3f59 then 14
    else if n == 0x463f59 then 15
    else if n == 0x4a3c54 then 16
    else if n == 0x4f3c54 then 17
    else if n == 0x4f394e then 18
    else if n == 0x4f394a then 19
    else if n == 0x503a46 then 20
    else if n == 0x503a40 then 21
    else if n == 0x4d4d4c then 22
    else if n == 0x464646 then 23
    else if n == 0x434342 then 24
    else if n == 0x3f3f3f then 25
    else if n == 0x3b3b3b then 26
    else -1
  }

  /** Where each map colour sits in the table (-1 when absent); tied back to
      `Table` by `ValuePositions`, like `KeyPosition`. */
  function ValuePosition(n: nat): int {
    if n == 0x963333ff then 0
    else if n == 0x964c33ff then 1
    else if n == 0x744d27ff then 2
    else if n == 0x746027ff then 3
    else if n == 0x49571dff then 4
    else if n == 0x3f5e1fff then 5
    else if n == 0x2f5e1fff then 6
    else if n == 0x206320ff then 7
    else if n == 0x206332ff then 8
    else if n == 0x1f5e4fff then 9
    else if n == 0x1f5e5eff then 10
    else if n == 0x1f4e5eff then 11
    else if n == 0x2c5885ff then 12
    else if n == 0x2c4285ff then 13
    else if n == 0x4141c4ff then 14
    else if n == 0x6241c4ff then 15
    else if n == 0x7038a8ff then 16
    else if n == 0x8c38a8ff then 17
    else if n == 0x8a2d8aff then 18
    else if n == 0x8a2d74ff then 19
    else if n == 0x913061ff then 20
    else if n == 0x913048ff then 21
    else if n == 0x808080ff then 22
    else if n == 0x616161ff then 23
    else if n == 0x525252ff then 24
    else if n == 0x424242ff then 25
    else if n == 0x333333ff then 26
    else -1
  }

  lemma KeyPositions()
    ensures forall i :: 0 <= i < |Table| ==> KeyPosition(Table[i].0) == i
  {
  }

  lemma ValuePositions()
    ensures forall i :: 0 <= i < |Table| ==> ValuePosition(Table[i].1) == i
  {
  }

  lemma ListedKeyFits(n: nat)
    requires KeyPosition(n) >= 0
    ensures n < 0x100_0000
  {
  }

  lemma ListedValueShape(n: nat)
    requires ValuePosition(n) >= 0
    ensures n < 0x1_0000_0000 && n % 256 == 255
  {
  }

  /** The table's keys are distinct and its numbers fit their digits. */
  lemma TableWellFormed()
    ensures KeysApart(Table) && FitsDigits(Table) && ValuesApart(Table)
    ensures forall i :: 0 <= i < |Table| ==> Table[i].1 % 256 == 255
  {
    KeyPositions();
    ValuePositions();
    forall i | 0 <= i < |Table|
      ensures Table[i].0 < 0x100_0000 && Table[i].1 < 0x1_0000_0000 && Table[i].1 % 256 == 255
    {
      ListedKeyFits(Table[i].0);
      ListedValueShape(Table[i].1);
    }
  }

  predicate ValuesApart(t: seq<(nat, nat)>) {
    forall i, j :: 0 <= i < j < |t| ==> t[i].1 != t[j].1
  }

  /** `COLOR_MAP`. */
  const ColorMap: map<string, string> := Dict(Table)

  /** The lookup key of a line: stripped, lower-cased, leading `#`s removed. */
  function LookupKey(line: string): (key: string)
    ensures |key| == 0 || key[0] != '#'
  {
    LStripChar(Lower(Strip(line)), '#')
  }

  datatype Outcome = Stop | Print(text: string)

  /** One turn of the loop: an empty line (after stripping) ends it; otherwise
      the mapped colour is printed, or the not-found reply. */
  function ConvertLine(line: string): (o: Outcome)
    ensures o.Stop? <==> Strip(line) == ""
    ensures o.Print? && LookupKey(line) in ColorMap ==> o.text == ColorMap[LookupKey(line)]
    ensures o.Print? && LookupKey(line) !in ColorMap ==> o.text == NotFound
  {
    var inputHex := Lower(Strip(line));
    if inputHex == "" then Stop
    else
      var key := LStripChar(inputHex, '#');
      if key in ColorMap && ColorMap[key] != "" then Print(ColorMap[key])
      else Print(NotFound)
  }

  /** The replies printed for the lines read, up to the first line `answer`
      stops at. */
  function Replies(lines: seq<string>, answer: string -> Outcome): (out: seq<string>)
    ensures |out| <= |lines|
  {
    if lines == [] then []
    else
      match answer(lines[0])
      case Stop => []
      case Print(text) => [text] + Replies(lines[1..], answer)
  }

  /** The replies of one run of the converter to the lines it reads. */
  function Session(lines: seq<string>): seq<string> {
    Replies(lines, ConvertLine)
  }

  /** A colour whose low byte is `ff` is spelled ending in `ff`. */
  lemma HexEndsFF(v: nat)
    requires v % 256 == 255
    ensures Hex(v, 8)[6..] == "ff"
  {
    var a := v / 256;
    assert v == 16 * (16 * a + 15) + 15;
    assert v % 16 == 15 && v / 16 == 16 * a + 15;
    assert (v / 16) % 16 == 15;
    var s := Hex(v, 8);
    var t := Hex(v / 16, 7);
    assert s == t + [HexDigit(15)];
    assert t == Hex(a, 6) + [HexDigit(15)];
    assert s[6..] == [HexDigit(15), HexDigit(15)];
  }

  /** `COLOR_MAP` holds exactly the table's entries. */
  lemma ColorMapEntries()
    ensures forall k :: k in ColorMap <==> exists i :: 0 <= i < |Table| && Hex(Table[i].0, 6) == k
    ensures forall i :: 0 <= i < |Table| ==> ColorMap[Hex(Table[i].0, 6)] == Hex(Table[i].1, 8)
  {
    TableWellFormed();
    DictEntries(Table);
  }

  /** With every value's low byte `ff`, every value of the dict ends in `ff`. */
  lemma DictValuesEndFF(t: seq<(nat, nat)>)
    requires KeysApart(t) && FitsDigits(t)
    requires forall i :: 0 <= i < |t| ==> t[i].1 % 256 == 255
    ensures forall k :: k in Dict(t) ==> Dict(t)[k][6..] == "ff"
  {
    DictEntries(t);
    forall k | k in Dict(t)
      ensures Dict(t)[k][6..] == "ff"
    {
      var i :| 0 <= i < |t| && Hex(t[i].0, 6) == k;
      HexEndsFF(t[i].1);
    }
  }

  /** With keys and values apart, no two keys of the dict share a value. */
  lemma DictInjective(t: seq<(nat, nat)>)
    requires KeysApart(t) && FitsDigits(t) && ValuesApart(t)
    ensures forall k1, k2 :: k1 in Dict(t) && k2 in Dict(t) && Dict(t)[k1] == Dict(t)[k2] ==> k1 == k2
  {
    DictEntries(t);
    Pow16Values();
    forall k1, k2 | k1 in Dict(t) && k2 in Dict(t) && Dict(t)[k1] == Dict(t)[k2]
      ensures k1 == k2
    {
      var i :| 0 <= i < |t| && Hex(t[i].0, 6) == k1;
      var j :| 0 <= j < |t| && Hex(t[j].0, 6) == k2;
      HexInjective(t[i].1, t[j].1, 8);
      assert t[i].1 == t[j].1;
      assert i == j;
    }
  }

  /** Every key is six lower-case hex digits; every value is eight, ending
      in the opaque alpha `ff`. */
  lemma TableShape()
    ensures forall k :: k in ColorMap ==> |k| == 6 && IsLowerHexString(k)
    ensures forall k :: k in ColorMap ==>
      |ColorMap[k]| == 8 && IsLowerHexString(ColorMap[k]) && ColorMap[k][6..] == "ff"
  {
    TableWellFormed();
    DictValuesEndFF(Table);
  }

  /** The table has 27 entries under 27 different keys, and no two of them
      share a map colour. */
  lemma TableInjective()
    ensures |Table| == 27 && KeysApart(Table)
    ensures forall k1, k2 :: k1 in ColorMap && k2 in ColorMap && ColorMap[k1] == ColorMap[k2] ==> k1 == k2
  {
    TableWellFormed();
    DictInjective(Table);
  }

  lemma {:induction false} HexStripped(k: string)
    requires k != [] && IsLowerHexString(k)
    ensures Strip(k) == k
  {
    assert IsLowerHex(k[0]) && IsLowerHex(k[|k| - 1]);
    StripOfTrimmed(k);
  }

  lemma {:induction false} HexLowered(k: string)
    requires IsLowerHexString(k)
    ensures Lower(k) == k
  {
    forall i | 0 <= i < |k|
      ensures Lower(k)[i] == k[i]
    {
      assert IsLowerHex(k[i]);
    }
  }

  lemma {:induction false} HexWithoutHash(k: string)
    requires IsLowerHexString(k)
    ensures LStripChar(k, '#') == k
  {
    if k != [] {
      assert IsLowerHex(k[0]);
    }
    LStripAt(k, '#', 0);
  }

  /** A non-empty string of lower-case hex digits is its own lookup key. */
  lemma {:induction false} HexLineIsKey(k: string)
    requires k != [] && IsLowerHexString(k)
    ensures Strip(k) == k && LookupKey(k) == k
  {
    HexStripped(k);
    HexLowered(k);
    HexWithoutHash(k);
  }

  /** Typing a table key gives its map colour. */
  lemma TableKeyAnswers(i: nat)
    requires i < |Table|
    ensures ConvertLine(Hex(Table[i].0, 6)) == Print(Hex(Table[i].1, 8))
  {
    TableWellFormed();
    DictHasEntry(Table, i);
    HexLineIsKey(Hex(Table[i].0, 6));
  }

  /** Lines that differ only in the case of their letters are looked up alike. */
  lemma LookupIgnoresCase(a: string, b: string)
    requires Lower(a) == Lower(b)
    ensures LookupKey(a) == LookupKey(b)
  {
    StripLower(a);
    StripLower(b);
  }

  /** `lstrip("#")` removes any `#`s put in front. */
  lemma LStripHashes(n: nat, s: string)
    ensures LStripChar(seq(n, i => '#') + s, '#') == LStripChar(s, '#')
  {
    var x := seq(n, i => '#') + s;
    var m := |s| - |LStripChar(s, '#')|;
    assert forall k :: n <= k < |x| ==> x[k] == s[k - n];
    LStripAt(x, '#', n + m);
    assert x[n + m..] == s[m..];
  }

  /** `#`s put in front of a line that does not start with white space stay
      in front after stripping. */
  lemma StripHashesLine(line: string, n: nat)
    requires line == [] || !IsSpace(line[0])
    ensures Strip(seq(n, i => '#') + line) == seq(n, i => '#') + Strip(line)
  {
    var hs := seq(n, i => '#');
    if n == 0 {
      assert hs + line == line && hs + Strip(line) == Strip(line);
    } else {
      StripPrefixed(hs, line);
    }
  }

  /** Any number of `#`s in front of a line that does not start with white
      space is ignored. */
  lemma LookupIgnoresHashes(line: string, n: nat)
    requires line == [] || !IsSpace(line[0])
    ensures LookupKey(seq(n, i => '#') + line) == LookupKey(line)
  {
    var hs := seq(n, i => '#');
    StripHashesLine(line, n);
    LowerConcat(hs, Strip(line));
    assert Lower(hs) == hs;
    LStripHashes(n, Lower(Strip(line)));
  }

  /** A line of only `#`s does not end the session; it gets the not-found reply. */
  lemma HashesOnly(n: nat)
    requires n > 0
    ensures ConvertLine(seq(n, i => '#')) == Print(NotFound)
  {
    var hs := seq(n, i => '#');
    StripOfTrimmed(hs);
    assert Lower(hs) == hs;
    LStripHashes(n, "");
    assert hs + "" == hs;
    TableShape();
  }

  /** The `i`-th reply answers the `i`-th line, which did not stop the run. */
  lemma {:induction false} RepliesLine(lines: seq<string>, answer: string -> Outcome, i: nat)
    requires i < |Replies(lines, answer)|
    ensures answer(lines[i]) == Print(Replies(lines, answer)[i])
  {
    if i > 0 {
      RepliesLine(lines[1..], answer, i - 1);
      assert lines[1..][i - 1] == lines[i];
    }
  }

  /** The run stops at the first line `answer` stops at, or at the end of input. */
  lemma {:induction false} RepliesStop(lines: seq<string>, answer: string -> Outcome)
    ensures var m := |Replies(lines, answer)|;
      m == |lines| || answer(lines[m]).Stop?
  {
    if lines != [] && answer(lines[0]).Print? {
      RepliesStop(lines[1..], answer);
      var m := |Replies(lines[1..], answer)|;
      if m < |lines| - 1 {
        assert lines[1..][m] == lines[m + 1];
      }
    }
  }

  /** The session answers each line in turn and stops at the first blank one. */
  lemma SessionAnswers(lines: seq<string>)
    ensures var out := Session(lines);
      |out| == |lines| || Strip(lines[|out|]) == ""
    ensures var out := Session(lines);
      forall i :: 0 <= i < |out| ==> Strip(lines[i]) != "" && ConvertLine(lines[i]) == Print(out[i])
  {
    RepliesStop(lines, ConvertLine);
    forall i | 0 <= i < |Session(lines)|
      ensures Strip(lines[i]) != "" && ConvertLine(lines[i]) == Print(Session(lines)[i])
    {
      RepliesLine(lines, ConvertLine, i);
    }
  }
}
