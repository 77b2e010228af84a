/** IPv6 addresses as text (ip6_ntop, ip6_pton and ip4_pton in lib/ip.c; section 2.2 of RFC 4291).

    A pointer into a text is represented by the rest of the text.
 */
module Ip6Text {
  datatype Option<T> = None | Some(value: T)

  // ---- Digits ----

  function Digit(d: nat): (c: char)
    requires d < 16
    ensures IsHex(c) && HexVal(c) == d && (d < 10 ==> IsDec(c))
  {
    if d < 10 then '0' + d as char else 'a' + (d - 10) as char
  }

  predicate IsDec(c: char) { '0' <= c <= '9' }

  predicate IsHex(c: char) { '0' <= c <= '9' || 'A' <= c <= 'F' || 'a' <= c <= 'f' }

  function HexVal(c: char): (r: nat)
    requires IsHex(c)
    ensures r < 16
  {
    if c <= '9' then c as int - '0' as int
    else if c <= 'F' then c as int - 'A' as int + 10
    else c as int - 'a' as int + 10
  }

  /** %x */
  function Hex(n: nat): (r: string)
    ensures |r| > 0 && IsHex(r[0])
  {
    if n < 16 then [Digit(n)] else Hex(n / 16) + [Digit(n % 16)]
  }

  /** %d */
  function Dec(n: nat): (r: string)
    ensures |r| > 0 && forall k :: 0 <= k < |r| ==> IsDec(r[k])
  {
    if n < 10 then [Digit(n)] else Dec(n / 10) + [Digit(n % 10)]
  }

  /** The hexadecimal number at the start, after l digits with value j: its value and the rest. */
  function ReadHex(t: string, j: nat, l: nat): (r: Option<(nat, string)>)
    requires j < 0x10000
    ensures r.Some? ==> r.value.0 < 0x10000 && |r.value.1| <= |t|
    decreases |t|
  {
    if t != "" && IsHex(t[0]) then
      var j' := j * 16 + HexVal(t[0]);
      if j' >= 0x10000 || l + 1 > 4 then None else ReadHex(t[1..], j', l + 1)
    else Some((j, t))
  }

  /** bstrtoul10 */
  function ReadDec(t: string, j: nat): (r: (nat, string))
    ensures |r.1| <= |t|
    decreases |t|
  {
    if t != "" && IsDec(t[0]) then ReadDec(t[1..], j * 10 + HexVal(t[0])) else (j, t)
  }

  lemma HexLength(n: nat)
    requires n < 0x10000
    ensures |Hex(n)| <= 4
  {
    if n >= 16 {
      assert |Hex(n / 16)| <= 3 by {
        if n / 16 >= 16 {
          assert |Hex(n / 16 / 16)| <= 2 by {
            if n / 16 / 16 >= 16 {
              assert |Hex(n / 16 / 16 / 16)| == 1;
            }
          }
        }
      }
    }
  }

  /** Reading what was printed. */
  lemma {:induction false} ReadHexPrinted(n: nat, rest: string)
    requires n < 0x10000
    ensures ReadHex(Hex(n) + rest, 0, 0) == ReadHex(rest, n, |Hex(n)|)
    decreases n
  {
    HexLength(n);
    if n < 16 {
      assert ([Digit(n)] + rest)[1..] == rest;
    } else {
      var d := [Digit(n % 16)];
      assert Hex(n) + rest == Hex(n / 16) + (d + rest);
      ReadHexPrinted(n / 16, d + rest);
      assert (d + rest)[1..] == rest;
    }
  }

  lemma {:induction false} ReadDecPrinted(n: nat, rest: string)
    ensures ReadDec(Dec(n) + rest, 0) == ReadDec(rest, n)
    decreases n
  {
    if n < 10 {
      assert ([Digit(n)] + rest)[1..] == rest;
    } else {
      var d := [Digit(n % 10)];
      assert Dec(n) + rest == Dec(n / 10) + (d + rest);
      ReadDecPrinted(n / 10, d + rest);
      assert (d + rest)[1..] == rest;
    }
  }

  // ---- IPv4 ----

  /** strchr(a, '.') finds something. */
  predicate HasDot(t: string) { '.' in t }

  /** ip4_pton for the last n numbers. */
  function ParseIp4(t: string, n: nat): (r: Option<seq<nat>>)
    requires n > 0
    ensures r.Some? ==> |r.value| == n && forall k :: 0 <= k < n ==> r.value[k] <= 255
    decreases n
  {
    var (l, d) := ReadDec(t, 0);
    if HasDot(t) == (n == 1) then None
    else if (d != "" && d[0] != '.') || l > 255 then None
    else if n == 1 then Some([l])
    else if d == "" then None
    else
      match ParseIp4(d[1..], n - 1)
      case None => None
      case Some(rest) => Some([l] + rest)
  }

  function Dotted(nums: seq<nat>): string {
    if nums == [] then "" else if |nums| == 1 then Dec(nums[0]) else Dec(nums[0]) + ("." + Dotted(nums[1..]))
  }

  lemma {:induction false} ParseDotted(nums: seq<nat>)
    requires nums != [] && forall k :: 0 <= k < |nums| ==> nums[k] <= 255
    ensures ParseIp4(Dotted(nums), |nums|) == Some(nums)
    decreases |nums|
  {
    var t := Dotted(nums);
    if |nums| == 1 {
      assert Dec(nums[0]) + "" == t;
      ReadDecPrinted(nums[0], "");
      assert nums == [nums[0]];
    } else {
      var rest := "." + Dotted(nums[1..]);
      ReadDecPrinted(nums[0], rest);
      assert rest[1..] == Dotted(nums[1..]);
      assert t[|Dec(nums[0])|] == '.';
      ParseDotted(nums[1..]);
      assert nums == [nums[0]] + nums[1..];
    }
  }

  // ---- Parsing IPv6 ----

  /** The loop of ip6_pton: words read so far, and the place of the gap or -1. */
  function ParseWords(t: string, words: seq<nat>, gap: int): (r: Option<(seq<nat>, int)>)
    requires -1 <= gap <= |words| <= 8
    ensures r.Some? ==> -1 <= r.value.1 <= |r.value.0| <= 8
    decreases |t|, 1
  {
    if t == "" then Some((words, gap))
    else if t[0] == ':' then
      if gap >= 0 then None else ParseWords(t[1..], words, |words|)
    else ParseWord(t, words, gap, ReadHex(t, 0, 0))
  }

  /** The rest of a round that started at t, after the number h was read. */
  function ParseWord(t: string, words: seq<nat>, gap: int, h: Option<(nat, string)>): (r: Option<(seq<nat>, int)>)
    requires -1 <= gap <= |words| <= 8 && (h.Some? ==> |h.value.1| <= |t|)
    ensures r.Some? ==> -1 <= r.value.1 <= |r.value.0| <= 8
    decreases |t|, 0
  {
    match h
    case None => None
    case Some((j, e)) =>
      if |e| > 1 && e[0] == ':' then
        if |words| >= 8 then None else ParseWords(e[1..], words + [j], gap)
      else if e != "" && e[0] == '.' && (|words| == 6 || (|words| < 6 && gap >= 0)) then
        match ParseIp4(t, 4)
        case None => None
        case Some(n) => Some((words + [n[0] * 256 + n[1], n[2] * 256 + n[3]], gap))
      else if e != "" then None
      else if |words| >= 8 then None
      else Some((words + [j], gap))
  }

  function Zeros(n: nat): seq<nat> { seq(n, _ => 0) }

  /** The gap replaced by zeros. */
  function Expand(words: seq<nat>, gap: int): Option<seq<nat>>
    requires -1 <= gap <= |words| <= 8
  {
    if gap >= 0 then Some(words[..gap] + Zeros(8 - |words|) + words[gap..])
    else if |words| != 8 then None
    else Some(words)
  }

  /** What ip6_pton makes of a text. */
  function Parse(s: string): Option<seq<nat>> {
    if s == "" || (s[0] == ':' && (|s| < 2 || s[1] != ':')) then None
    else
      match ParseWords(if s[0] == ':' then s[1..] else s, [], -1)
      case None => None
      case Some((words, gap)) => Expand(words, gap)
  }

  // ---- Printing IPv6 ----

  predicate IsAddr(w: seq<nat>) { |w| == 8 && forall k :: 0 <= k < 8 ==> w[k] < 0x10000 }

  /** Words with a colon before each. */
  function Tail(gs: seq<nat>): string {
    if gs == [] then "" else ":" + (Hex(gs[0]) + Tail(gs[1..]))
  }

  /** Words with a colon between them. */
  function Join(gs: seq<nat>): string {
    if gs == [] then "" else Hex(gs[0]) + Tail(gs[1..])
  }

  /** The four bytes of the last two words. */
  function Bytes4(w: seq<nat>): (r: seq<nat>)
    requires |w| == 8
    ensures |r| == 4
  {
    [w[6] / 256, w[6] % 256, w[7] / 256, w[7] % 256]
  }

  /** The text for an address whose longest run of zeros is pos..pos + len. */
  function Text(w: seq<nat>, pos: nat, len: nat): string
    requires IsAddr(w) && pos + len <= 8
  {
    if len < 2 then Join(w)
    else if pos == 0 && len == 5 && w[5] == 0xffff then "::ffff:" + Dotted(Bytes4(w))
    else if pos == 0 && len == 6 then "::" + Dotted(Bytes4(w))
    else Join(w[..pos]) + (":" + if pos + len == 8 then ":" else Tail(w[pos + len..]))
  }

  // ---- Reading back ----

  /** A word with something else behind it. */
  lemma ReadWord(g: nat, rest: string)
    requires g < 0x10000 && (rest != "" ==> !IsHex(rest[0]))
    ensures ReadHex(Hex(g) + rest, 0, 0) == Some((g, rest)) && (Hex(g) + rest)[0] != ':'
  {
    ReadHexPrinted(g, rest);
  }

  lemma WordEnd(g: nat, words: seq<nat>, gap: int)
    requires g < 0x10000 && -1 <= gap <= |words| < 8
    ensures ParseWords(Hex(g), words, gap) == Some((words + [g], gap))
  {
    ReadWord(g, "");
    assert Hex(g) + "" == Hex(g);
  }

  lemma WordColon(g: nat, rest: string, words: seq<nat>, gap: int)
    requires g < 0x10000 && -1 <= gap <= |words| < 8 && rest != ""
    ensures ParseWords(Hex(g) + (":" + rest), words, gap) == ParseWords(rest, words + [g], gap)
  {
    ReadWord(g, ":" + rest);
    assert (":" + rest)[1..] == rest;
  }

  /** Words up to the end. */
  lemma {:induction false} ParseJoin(gs: seq<nat>, words: seq<nat>, gap: int, all: seq<nat>)
    requires gs != [] && AllWords(gs) && -1 <= gap <= |words| && |all| <= 8 && all == words + gs
    ensures ParseWords(Join(gs), words, gap) == Some((all, gap))
    decreases |gs|
  {
    JoinFirst(gs);
    RestWords(gs, words);
    if |gs| == 1 {
      assert all == words + [gs[0]];
      WordEnd(gs[0], words, gap);
    } else {
      ParseJoin(gs[1..], words + [gs[0]], gap, all);
      WordColon(gs[0], Join(gs[1..]), words, gap);
    }
  }

  lemma JoinFirst(gs: seq<nat>)
    requires gs != []
    ensures Join(gs) == if |gs| == 1 then Hex(gs[0]) else Hex(gs[0]) + (":" + Join(gs[1..]))
    ensures |gs| > 1 ==> Join(gs[1..]) != ""
  {
  }

  lemma StepGap(rest: string, words: seq<nat>)
    requires |words| <= 8
    ensures ParseWords(":" + rest, words, -1) == ParseWords(rest, words, |words|)
  {
    assert (":" + rest)[1..] == rest;
  }

  /** The words, a gap and the rest. */
  function Gapped(gs: seq<nat>, rest: string): string { Join(gs) + (":" + (":" + rest)) }

  lemma GappedMore(gs: seq<nat>, rest: string)
    requires |gs| > 0
    ensures Gapped(gs, rest) == Hex(gs[0]) + (":" + if |gs| == 1 then ":" + rest else Gapped(gs[1..], rest))
  {
    if |gs| > 1 {
      assert Join(gs) == Hex(gs[0]) + (":" + Join(gs[1..]));
    }
  }

  /** The same with names for the texts. */
  lemma WordThen(t: string, g: nat, rest: string, words: seq<nat>, all: seq<nat>)
    requires g < 0x10000 && |words| < 8 && rest != "" && t == Hex(g) + (":" + rest) && all == words + [g]
    ensures ParseWords(t, words, -1) == ParseWords(rest, all, -1)
  {
    WordColon(g, rest, words, -1);
  }

  lemma GapThen(t: string, rest: string, words: seq<nat>)
    requires |words| <= 8 && t == ":" + rest
    ensures ParseWords(t, words, -1) == ParseWords(rest, words, |words|)
  {
    StepGap(rest, words);
  }

  lemma OneToGap(gs: seq<nat>, words: seq<nat>, t: string, rest: string, all: seq<nat>)
    requires |gs| == 1 && gs[0] < 0x10000 && |all| <= 8 && all == words + gs && t == Gapped(gs, rest)
    ensures ParseWords(t, words, -1) == ParseWords(rest, all, |all|)
  {
    var u := ":" + rest;
    assert t == Hex(gs[0]) + (":" + u) by { GappedMore(gs, rest); }
    assert gs == [gs[0]];
    WordThen(t, gs[0], u, words, all);
    GapThen(u, rest, all);
  }

  lemma MoreToGap(gs: seq<nat>, words: seq<nat>, rest: string, ws: seq<nat>)
    requires |gs| > 1 && gs[0] < 0x10000 && |words| < 8 && ws == words + [gs[0]]
    ensures ParseWords(Gapped(gs, rest), words, -1) == ParseWords(Gapped(gs[1..], rest), ws, -1)
  {
    GappedMore(gs, rest);
    WordThen(Gapped(gs, rest), gs[0], Gapped(gs[1..], rest), words, ws);
  }

  predicate AllWords(gs: seq<nat>) { forall k :: 0 <= k < |gs| ==> gs[k] < 0x10000 }

  lemma RestWords(gs: seq<nat>, words: seq<nat>)
    requires |gs| > 0 && AllWords(gs)
    ensures gs[0] < 0x10000 && AllWords(gs[1..]) && words + [gs[0]] + gs[1..] == words + gs
  {
  }

  /** Words up to the gap. */
  lemma {:induction false} ParseToGap(gs: seq<nat>, words: seq<nat>, rest: string, all: seq<nat>)
    requires gs != [] && AllWords(gs) && |all| <= 8 && all == words + gs
    ensures ParseWords(Gapped(gs, rest), words, -1) == ParseWords(rest, all, |all|)
    decreases |gs|
  {
    RestWords(gs, words);
    if |gs| == 1 {
      OneToGap(gs, words, Gapped(gs, rest), rest, all);
    } else {
      MoreToGap(gs, words, rest, words + [gs[0]]);
      ParseToGap(gs[1..], words + [gs[0]], rest, all);
    }
  }

  // ---- Embedded IPv4 addresses ----

  function Pow16(l: nat): nat { if l == 0 then 1 else 16 * Pow16(l - 1) }

  /** Up to four decimal digits are read as a hexadecimal number, too. */
  lemma {:induction false} ReadDecAsHex(t: string, rest: string, j: nat, l: nat)
    requires (forall k :: 0 <= k < |t| ==> IsDec(t[k])) && |t| + l <= 4 && j < Pow16(l) && j < 0x10000
    requires rest != "" ==> !IsHex(rest[0])
    ensures ReadHex(t + rest, j, l).Some? && ReadHex(t + rest, j, l).value.1 == rest
    decreases |t|
  {
    if t == "" {
      assert t + rest == rest;
    } else {
      assert Pow16(1) == 16 && Pow16(2) == 256 && Pow16(3) == 4096 && Pow16(4) == 0x10000;
      ReadDecAsHex(t[1..], rest, j * 16 + HexVal(t[0]), l + 1);
      assert (t + rest)[1..] == t[1..] + rest;
    }
  }

  lemma DecLength(n: nat)
    requires n <= 255
    ensures |Dec(n)| <= 3
  {
    if n >= 10 {
      assert |Dec(n / 10)| <= 2 by {
        if n / 10 >= 10 {
          assert |Dec(n / 10 / 10)| == 1;
        }
      }
    }
  }

  lemma ParseV4(n: seq<nat>, words: seq<nat>, gap: int)
    requires |n| == 4 && (forall k :: 0 <= k < 4 ==> n[k] <= 255) && 0 <= gap <= |words| < 6
    ensures ParseWords(Dotted(n), words, gap) == Some((words + [n[0] * 256 + n[1], n[2] * 256 + n[3]], gap))
  {
    var t := Dotted(n);
    var rest := "." + Dotted(n[1..]);
    assert t == Dec(n[0]) + rest;
    DecLength(n[0]);
    ReadDecAsHex(Dec(n[0]), rest, 0, 0);
    ParseDotted(n);
    assert t[0] == Dec(n[0])[0];
  }

  // ---- The round trip ----

  predicate ZeroRun(w: seq<nat>, pos: nat, len: nat)
    requires |w| == 8
  {
    pos + len <= 8 && forall k :: pos <= k < pos + len ==> w[k] == 0
  }

  lemma Bytes4Back(w: seq<nat>)
    requires IsAddr(w)
    ensures var n := Bytes4(w);
      (forall k :: 0 <= k < 4 ==> n[k] <= 255) && n[0] * 256 + n[1] == w[6] && n[2] * 256 + n[3] == w[7]
  {
  }

  lemma ExpandRun(w: seq<nat>, pos: nat, len: nat)
    requires IsAddr(w) && ZeroRun(w, pos, len)
    ensures Expand(w[..pos] + w[pos + len..], pos) == Some(w)
  {
    var words := w[..pos] + w[pos + len..];
    assert words[..pos] == w[..pos] && words[pos..] == w[pos + len..];
    assert w[pos..pos + len] == Zeros(len);
    assert w == w[..pos] + w[pos..pos + len] + w[pos + len..];
  }

  lemma ParseAfterGap(hs: seq<nat>, words: seq<nat>, gap: int)
    requires AllWords(hs) && |words| + |hs| <= 8 && 0 <= gap <= |words|
    ensures ParseWords(Join(hs), words, gap) == Some((words + hs, gap))
  {
    if hs == [] {
      assert words + hs == words;
    } else {
      ParseJoin(hs, words, gap, words + hs);
    }
  }

  lemma TextGapped(w: seq<nat>, pos: nat, len: nat)
    requires pos + len <= 8 == |w|
    ensures Join(w[..pos]) + (":" + if pos + len == 8 then ":" else Tail(w[pos + len..])) ==
            Gapped(w[..pos], Join(w[pos + len..]))
  {
    var hs := w[pos + len..];
    if hs != [] {
      assert Tail(hs) == ":" + Join(hs);
    }
  }

  lemma ParseLeadingGap(rest: string)
    ensures Parse(":" + (":" + rest)) ==
      match ParseWords(rest, [], 0) case None => None case Some((words, gap)) => Expand(words, gap)
  {
    var s := ":" + (":" + rest);
    assert s[1..] == ":" + rest;
    StepGap(rest, []);
  }

  /** A run of zeros written as a gap. */
  lemma ParseGapText(w: seq<nat>, pos: nat, len: nat)
    requires IsAddr(w) && ZeroRun(w, pos, len)
    ensures Parse(Gapped(w[..pos], Join(w[pos + len..]))) == Some(w)
  {
    var gs, hs := w[..pos], w[pos + len..];
    ExpandRun(w, pos, len);
    ParseAfterGap(hs, gs, pos);
    if pos == 0 {
      ParseGapFirst(gs, hs);
    } else {
      ParseGapLater(gs, hs);
    }
  }

  lemma ParseGapFirst(gs: seq<nat>, hs: seq<nat>)
    requires gs == [] && AllWords(hs) && |hs| <= 8 && ParseWords(Join(hs), gs, 0) == Some((gs + hs, 0))
    ensures Parse(Gapped(gs, Join(hs))) == Expand(gs + hs, 0)
  {
    assert Gapped(gs, Join(hs)) == ":" + (":" + Join(hs));
    ParseLeadingGap(Join(hs));
  }

  lemma ParseGapLater(gs: seq<nat>, hs: seq<nat>)
    requires gs != [] && AllWords(gs) && |gs| + |hs| <= 8
    requires ParseWords(Join(hs), gs, |gs|) == Some((gs + hs, |gs|))
    ensures Parse(Gapped(gs, Join(hs))) == Expand(gs + hs, |gs|)
  {
    assert [] + gs == gs;
    ParseToGap(gs, [], Join(hs), gs);
    assert Gapped(gs, Join(hs))[0] == Hex(gs[0])[0];
  }

  lemma ParseV4Text(w: seq<nat>)
    requires IsAddr(w) && ZeroRun(w, 0, 6)
    ensures Parse("::" + Dotted(Bytes4(w))) == Some(w)
  {
    var t := Dotted(Bytes4(w));
    Bytes4Back(w);
    ParseV4(Bytes4(w), [], 0);
    assert "::" + t == ":" + (":" + t);
    ParseLeadingGap(t);
    ExpandRun(w, 0, 6);
    assert w[..0] + w[6..] == [] + [w[6], w[7]];
  }

  lemma ParseMappedText(w: seq<nat>)
    requires IsAddr(w) && ZeroRun(w, 0, 5) && w[5] == 0xffff
    ensures Parse("::ffff:" + Dotted(Bytes4(w))) == Some(w)
  {
    var t := Dotted(Bytes4(w));
    HexOnes();
    var u := Hex(0xffff) + (":" + t);
    assert "::ffff:" + t == ":" + (":" + u);
    ParseLeadingGap(u);
    ParseMappedWords(w, t, u);
    ExpandRun(w, 0, 5);
    assert w[..0] + w[5..] == [0xffff, w[6], w[7]];
  }

  lemma HexOnes()
    ensures Hex(0xffff) == "ffff"
  {
    assert Hex(0xf) == "f" && Hex(0xff) == "ff" && Hex(0xfff) == "fff";
  }

  lemma ParseMappedWords(w: seq<nat>, t: string, u: string)
    requires IsAddr(w) && t == Dotted(Bytes4(w)) && u == Hex(0xffff) + (":" + t)
    ensures ParseWords(u, [], 0) == Some(([0xffff, w[6], w[7]], 0))
  {
    Bytes4Back(w);
    WordColon(0xffff, t, [], 0);
    assert [] + [0xffff] == [0xffff];
    ParseV4(Bytes4(w), [0xffff], 0);
    assert [0xffff] + [w[6], w[7]] == [0xffff, w[6], w[7]];
  }

  /** Whatever run of zeros is chosen, the text is read back as the address. */
  lemma RoundTrip(w: seq<nat>, pos: nat, len: nat)
    requires IsAddr(w) && ZeroRun(w, pos, len)
    ensures Parse(Text(w, pos, len)) == Some(w)
  {
    if len < 2 {
      ParseJoin(w, [], -1, w);
      assert [] + w == w && Join(w)[0] == Hex(w[0])[0];
    } else if pos == 0 && len == 5 && w[5] == 0xffff {
      ParseMappedText(w);
    } else if pos == 0 && len == 6 {
      ParseV4Text(w);
    } else {
      TextGapped(w, pos, len);
      ParseGapText(w, pos, len);
    }
  }

  // ---- ip6_ntop ----

  /** pos..pos + len is the first of the longest runs of zeros. */
  ghost predicate FirstLongest(w: seq<nat>, pos: nat, len: nat)
    requires |w| == 8
  {
    && ZeroRun(w, pos, len)
    && (forall p: nat, l: nat :: ZeroRun(w, p, l) ==> l <= len)
    && (forall p: nat :: p < pos ==> !ZeroRun(w, p, len))
  }

  /** The same among the first i words. */
  ghost predicate BestOf(w: seq<nat>, i: nat, pos: nat, len: nat)
    requires |w| == 8
  {
    && pos + len <= i && ZeroRun(w, pos, len)
    && (forall p: nat, l: nat :: p + l <= i && ZeroRun(w, p, l) ==> l <= len)
    && (len > 0 ==> forall p: nat :: p < pos ==> !ZeroRun(w, p, len))
    && (len == 0 ==> pos == 0)
  }

  /** The zeros before i. */
  ghost predicate Current(w: seq<nat>, i: nat, pos: nat, len: nat)
    requires |w| == 8
  {
    && (len > 0 ==> pos + len == i) && len <= i && ZeroRun(w, i - len, len) && (len < i <= 8 ==> w[i - len - 1] != 0)
  }

  method LongestRun(w: seq<nat>) returns (bestpos: nat, bestlen: nat)
    requires IsAddr(w)
    ensures FirstLongest(w, bestpos, bestlen)
  {
    bestpos, bestlen := 0, 0;
    var curpos: nat, curlen: nat := 0, 0;
    for i := 0 to 8
      invariant Current(w, i, curpos, curlen) && BestOf(w, i, bestpos, bestlen) && curlen <= bestlen
    {
      if w[i] != 0 {
        curlen := 0;
      } else {
        if curlen == 0 {
          curpos := i;
        }
        curlen := curlen + 1;
        if curlen > bestlen {
          bestpos, bestlen := curpos, curlen;
        }
      }
    }
  }

  lemma {:induction false} TailAppend(gs: seq<nat>, g: nat)
    ensures Tail(gs + [g]) == Tail(gs) + (":" + Hex(g))
    decreases |gs|
  {
    if gs == [] {
      assert gs + [g] == [g] && Tail([g]) == ":" + (Hex(g) + "");
    } else {
      TailAppend(gs[1..], g);
      assert (gs + [g])[1..] == gs[1..] + [g];
      assert ":" + (Hex(gs[0]) + (Tail(gs[1..]) + (":" + Hex(g)))) ==
             (":" + (Hex(gs[0]) + Tail(gs[1..]))) + (":" + Hex(g));
    }
  }

  lemma JoinAppend(gs: seq<nat>, g: nat)
    ensures Join(gs + [g]) == Join(gs) + ((if gs == [] then "" else ":") + Hex(g))
  {
    if gs == [] {
      assert gs + [g] == [g] && Join([g]) == Hex(g) + "";
    } else {
      TailAppend(gs[1..], g);
      assert (gs + [g])[1..] == gs[1..] + [g];
    }
  }

  /** What is printed for the first i words, with words from pos on compressed. */
  function Printed(w: seq<nat>, pos: int, len: nat, i: nat): string
    requires i <= |w| == 8 && (pos >= 0 ==> pos + len <= 8)
  {
    if pos < 0 || i <= pos then Join(w[..i])
    else if i < pos + len then ""
    else Join(w[..pos]) + (":" + if pos + len == 8 then ":" else Tail(w[pos + len..i]))
  }

  lemma PrintedWord(w: seq<nat>, pos: int, len: nat, i: nat)
    requires i < |w| == 8 && (pos >= 0 ==> 1 <= len && pos + len <= 8 && (i < pos || pos + len <= i))
    ensures Printed(w, pos, len, i + 1) == Printed(w, pos, len, i) + ((if i == 0 then "" else ":") + Hex(w[i]))
  {
    if pos < 0 || i < pos {
      assert w[..i + 1] == w[..i] + [w[i]];
      JoinAppend(w[..i], w[i]);
    } else {
      assert w[pos + len..i + 1] == w[pos + len..i] + [w[i]];
      TailAppend(w[pos + len..i], w[i]);
      Regroup(Join(w[..pos]), Tail(w[pos + len..i]), ":" + Hex(w[i]));
    }
  }

  lemma Regroup(x: string, y: string, z: string)
    ensures x + (":" + (y + z)) == (x + (":" + y)) + z
  {
    assert ":" + (y + z) == (":" + y) + z;
  }

  lemma PrintedGap(w: seq<nat>, pos: nat, len: nat)
    requires |w| == 8 && 1 <= len && pos + len <= 8
    ensures Printed(w, pos, len, pos + len) == Printed(w, pos, len, pos) + (if pos + len == 8 then "::" else ":")
  {
    assert w[pos + len..pos + len] == [];
  }

  /** ip6_ntop: the first longest run of at least two zeros is compressed, and the
      text is read back as the address. */
  method Ntop(w: seq<nat>) returns (b: string, ghost pos: nat, ghost len: nat)
    requires IsAddr(w)
    ensures FirstLongest(w, pos, len) && b == Text(w, pos, len)
    ensures Parse(b) == Some(w)
    // two zeros side by side are never written out
    ensures (forall i :: 0 <= i < 7 ==> !(w[i] == 0 && w[i + 1] == 0)) ==> b == Join(w)
    ensures (exists i :: 0 <= i < 7 && w[i] == 0 && w[i + 1] == 0) ==>
              len >= 2 &&
              b == if pos == 0 && len == 6 then "::" + Dotted(Bytes4(w))
                   else if pos == 0 && len == 5 && w[5] == 0xffff then "::ffff:" + Dotted(Bytes4(w))
                   else Join(w[..pos]) + ("::" + Join(w[pos + len..]))
  {
    var bestpos, bestlen := LongestRun(w);
    pos, len := bestpos, bestlen;
    b := PrintText(w, bestpos, bestlen);
    RoundTrip(w, pos, len);
    TextIs(w, pos, len);
  }

  method PrintText(w: seq<nat>, pos: nat, bestlen: nat) returns (b: string)
    requires IsAddr(w) && pos + bestlen <= 8
    ensures b == Text(w, pos, bestlen)
  {
    var bestpos: int := pos;
    if bestlen < 2 {
      bestpos := -1;
    }
    if bestpos == 0 && ((bestlen == 5 && w[5] == 0xffff) || bestlen == 6) {
      b := "::" + (if bestlen == 5 then "ffff:" else "") + Dotted(Bytes4(w));
      return;
    }
    b := PrintWords(w, bestpos, bestlen);
    assert w[..8] == w;
  }

  lemma TextIs(w: seq<nat>, pos: nat, len: nat)
    requires IsAddr(w) && FirstLongest(w, pos, len)
    ensures (exists i :: 0 <= i < 7 && w[i] == 0 && w[i + 1] == 0) <==> len >= 2
    ensures len < 2 ==> Text(w, pos, len) == Join(w)
    ensures len >= 2 ==>
              Text(w, pos, len) == if pos == 0 && len == 6 then "::" + Dotted(Bytes4(w))
                                   else if pos == 0 && len == 5 && w[5] == 0xffff then "::ffff:" + Dotted(Bytes4(w))
                                   else Join(w[..pos]) + ("::" + Join(w[pos + len..]))
  {
    TwoZeros(w, pos, len);
    if len >= 2 {
      TextGapped(w, pos, len);
      GappedIs(w[..pos], Join(w[pos + len..]));
    }
  }

  lemma TwoZeros(w: seq<nat>, pos: nat, len: nat)
    requires IsAddr(w) && FirstLongest(w, pos, len)
    ensures (exists i :: 0 <= i < 7 && w[i] == 0 && w[i + 1] == 0) <==> len >= 2
  {
    if i :| 0 <= i < 7 && w[i] == 0 && w[i + 1] == 0 {
      assert ZeroRun(w, i, 2);
    }
    if len >= 2 {
      assert w[pos] == 0 && w[pos + 1] == 0;
    }
  }

  lemma GappedIs(gs: seq<nat>, rest: string)
    ensures Gapped(gs, rest) == Join(gs) + ("::" + rest)
  {
    assert "::" + rest == ":" + (":" + rest);
  }

  method PrintWords(w: seq<nat>, bestpos: int, bestlen: nat) returns (b: string)
    requires IsAddr(w) && (bestpos >= 0 ==> 2 <= bestlen && bestpos + bestlen <= 8)
    ensures b == Printed(w, bestpos, bestlen, 8)
  {
    b := "";
    var i: nat := 0;
    PrintedNone(w, bestpos, bestlen);
    while i < 8
      invariant i <= 8 && (bestpos >= 0 ==> i <= bestpos || bestpos + bestlen <= i)
      invariant b == Printed(w, bestpos, bestlen, i)
    {
      var more;
      more, i := PrintNext(w, bestpos, bestlen, i);
      b := b + more;
    }
  }

  lemma PrintedNone(w: seq<nat>, pos: int, len: nat)
    requires |w| == 8 && (pos >= 0 ==> 1 <= len && pos + len <= 8)
    ensures Printed(w, pos, len, 0) == ""
  {
    assert w[..0] == [];
  }

  /** One round: a word, or the gap. */
  method PrintNext(w: seq<nat>, bestpos: int, bestlen: nat, i0: nat) returns (more: string, i: nat)
    requires IsAddr(w) && (bestpos >= 0 ==> 2 <= bestlen && bestpos + bestlen <= 8) && i0 < 8
    requires bestpos >= 0 ==> i0 <= bestpos || bestpos + bestlen <= i0
    ensures i0 < i <= 8 && (bestpos >= 0 ==> i <= bestpos || bestpos + bestlen <= i)
    ensures Printed(w, bestpos, bestlen, i) == Printed(w, bestpos, bestlen, i0) + more
  {
    if i0 == bestpos {
      i := i0 + bestlen - 1;
      more := if i == 7 then "::" else ":";
      i := i + 1;
      PrintedGap(w, bestpos, bestlen);
    } else {
      more := (if i0 == 0 then "" else ":") + Hex(w[i0]);
      i := i0 + 1;
      PrintedWord(w, bestpos, bestlen, i0);
    }
  }

  // ---- ip6_pton ----

  /** The digits of a word; fails if there are too many. */
  method ScanHex(a0: string) returns (ok: bool, j: nat, a: string)
    ensures ReadHex(a0, 0, 0) == if ok then Some((j, a)) else None
  {
    var l := 0;
    ok, j, a := true, 0, a0;
    while a != "" && IsHex(a[0])
      invariant 0 <= l <= 4 && j < 0x10000 && ReadHex(a, j, l) == ReadHex(a0, 0, 0)
      decreases |a|
    {
      var k := HexVal(a[0]);
      a := a[1..];
      j := j * 16 + k;
      l := l + 1;
      if j >= 0x10000 || l > 4 {
        ok := false;
        return;
      }
    }
  }

  method ScanDec(a0: string) returns (j: nat, a: string)
    ensures ReadDec(a0, 0) == (j, a)
  {
    j, a := 0, a0;
    while a != "" && IsDec(a[0])
      invariant ReadDec(a, j) == ReadDec(a0, 0)
      decreases |a|
    {
      j := j * 10 + HexVal(a[0]);
      a := a[1..];
    }
  }

  function Prefixed(nums: seq<nat>, r: Option<seq<nat>>): Option<seq<nat>> {
    match r
    case None => None
    case Some(rest) => Some(nums + rest)
  }

  /** ip4_pton */
  method Ip4Pton(a0: string) returns (r: Option<seq<nat>>)
    ensures r == ParseIp4(a0, 4)
  {
    var a, nums: seq<nat> := a0, [];
    var i := 4;
    assert ParseIp4(a0, 4).Some? ==> [] + ParseIp4(a0, 4).value == ParseIp4(a0, 4).value;
    while i > 0
      invariant 0 <= i <= 4 && |nums| == 4 - i
      invariant i > 0 ==> ParseIp4(a0, 4) == Prefixed(nums, ParseIp4(a, i))
      invariant i == 0 ==> ParseIp4(a0, 4) == Some(nums)
    {
      i := i - 1;
      if HasDot(a) == (i == 0) {
        return None;
      }
      var l, d := ScanDec(a);
      if (d != "" && d[0] != '.') || l > 255 {
        return None;
      }
      if i == 0 {
        assert nums + [l] + [] == nums + [l];
      } else if d == "" {
        return None;
      } else {
        ghost var next := ParseIp4(d[1..], i);
        assert next.Some? ==> nums + ([l] + next.value) == (nums + [l]) + next.value;
        a := d[1..];
      }
      nums := nums + [l];
    }
    return Some(nums);
  }

  /** Spread the words of the array: those behind the gap move to the end, zeros come between. */
  method Fill(words: array<nat>, n: nat, gap: nat)
    requires words.Length == 8 && gap <= n <= 8
    modifies words
    ensures words[..] == old(words[..gap]) + Zeros(8 - n) + old(words[gap..n])
  {
    var j := 8 - n;
    var i := 7;
    while i - j >= gap
      invariant gap + j - 1 <= i <= 7
      invariant forall k :: 0 <= k <= i ==> words[k] == old(words[k])
      invariant forall k :: i < k < 8 ==> words[k] == old(words[k - j])
      decreases i
    {
      words[i] := words[i - j];
      i := i - 1;
    }
    while i >= gap
      invariant gap - 1 <= i <= gap + j - 1
      invariant forall k :: 0 <= k <= i ==> words[k] == old(words[k])
      invariant forall k :: i < k < gap + j ==> words[k] == 0
      invariant forall k :: gap + j <= k < 8 ==> words[k] == old(words[k - j])
      decreases i
    {
      words[i] := 0;
      i := i - 1;
    }
    Filled(words[..], old(words[..]), n, gap);
  }

  lemma Filled(now: seq<nat>, was: seq<nat>, n: nat, gap: nat)
    requires |now| == |was| == 8 && gap <= n <= 8
    requires forall k :: 0 <= k < gap ==> now[k] == was[k]
    requires forall k :: gap <= k < gap + 8 - n ==> now[k] == 0
    requires forall k :: gap + 8 - n <= k < 8 ==> now[k] == was[k - (8 - n)]
    ensures now == was[..gap] + Zeros(8 - n) + was[gap..n]
  {
  }

  /** One word: stop with a failure, with the words complete, or go on behind it. */
  datatype Round = Fail | Done | Again(a: string)

  method ScanWord(a: string, words: array<nat>, i: nat, gap: int) returns (r: Round, n: nat)
    requires words.Length == 8 && -1 <= gap <= i <= 8 && a != "" && a[0] != ':'
    modifies words
    ensures i <= n <= 8 && words[..i] == old(words[..i])
    ensures ParseWords(a, old(words[..i]), gap) ==
      match r
      case Fail => None
      case Done => Some((words[..n], gap))
      case Again(e) => ParseWords(e, words[..n], gap)
    ensures r.Again? ==> |r.a| < |a|
  {
    n := i;
    ghost var before := words[..i];
    var ok, j, e := ScanHex(a);
    if !ok {
      return Fail, n;
    }
    if |e| > 1 && e[0] == ':' {
      if i >= 8 {
        return Fail, n;
      }
      words[i] := j;
      n := i + 1;
      assert words[..n] == before + [j];
      return Again(e[1..]), n;
    }
    if e != "" && e[0] == '.' && (i == 6 || (i < 6 && gap >= 0)) {
      var x := Ip4Pton(a);
      if x == None {
        return Fail, n;
      }
      words[i], words[i + 1] := x.value[0] * 256 + x.value[1], x.value[2] * 256 + x.value[3];
      n := i + 2;
      assert words[..n] == before + [words[i], words[i + 1]];
      return Done, n;
    }
    if e != "" || i >= 8 {
      return Fail, n;
    }
    words[i] := j;
    n := i + 1;
    assert words[..n] == before + [j];
    return Done, n;
  }

  /** ip6_pton */
  method Pton(s: string) returns (r: Option<seq<nat>>)
    ensures r == Parse(s)
  {
    if s == "" {
      return None;
    }
    var a := s;
    if a[0] == ':' {
      if |a| < 2 || a[1] != ':' {
        return None;
      }
      a := a[1..];
    }
    var words := new nat[8](_ => 0);
    var gap: int, i: nat := -1, 0;
    ghost var goal := ParseWords(a, [], -1);
    assert words[..0] == [];
    while a != ""
      invariant -1 <= gap <= i <= 8 && ParseWords(a, words[..i], gap) == goal
      decreases |a|
    {
      if a[0] == ':' {
        if gap >= 0 {
          return None;
        }
        gap := i;
        a := a[1..];
      } else {
        var round;
        round, i := ScanWord(a, words, i, gap);
        match round {
          case Fail => return None;
          case Done => a := "";
          case Again(e) => a := e;
        }
      }
    }
    ghost var ws := words[..i];
    assert goal == Some((ws, gap));
    if gap >= 0 {
      assert ws[..gap] == words[..gap] && ws[gap..] == words[gap..i];
      Fill(words, i, gap);
      assert Expand(ws, gap) == Some(words[..]);
    } else if i != 8 {
      return None;
    } else {
      assert ws == words[..];
    }
    return Some(words[..]);
  }

  /** Every address survives printing and reading. */
  method PrintAndRead(w: seq<nat>) returns (b: string, r: Option<seq<nat>>)
    requires IsAddr(w)
    ensures r == Some(w)
  {
    ghost var pos, len;
    b, pos, len := Ntop(w);
    r := Pton(b);
  }
}
