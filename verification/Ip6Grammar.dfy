/** Which texts are IPv6 addresses for ip6_pton and ip4_pton (lib/ip.c), told by a grammar: groups of up
    to four hexadecimal digits with colons between them, one gap, and a dotted IPv4 address at the end.
 */
module Ip6Grammar {
  import opened Ip6Text

  // ---- Digits and numbers ----

  /** The value of a digit is its place in the list of digits, in lower or in upper case. */
  lemma HexValIs(c: char)
    ensures IsHex(c) <==> c in "0123456789abcdef" || c in "0123456789ABCDEF"
    ensures IsDec(c) <==> c in "0123456789"
    ensures IsHex(c) ==> c == "0123456789abcdef"[HexVal(c)] || c == "0123456789ABCDEF"[HexVal(c)]
  {
    if IsHex(c) {
      var d := HexVal(c);
      if '0' <= c <= '9' {
        assert c == '0' + d as char;
        assert c == "0123456789abcdef"[d];
      } else if 'a' <= c <= 'f' {
        assert c == 'a' + (d - 10) as char;
        assert c == "0123456789abcdef"[d];
      } else {
        assert c == 'A' + (d - 10) as char;
        assert c == "0123456789ABCDEF"[d];
      }
    }
  }

  predicate AllHex(g: string) { forall k :: 0 <= k < |g| ==> IsHex(g[k]) }

  predicate AllDec(g: string) { forall k :: 0 <= k < |g| ==> IsDec(g[k]) }

  /** Digits read as a number, behind the number j. */
  function Number(base: nat, g: string, j: nat): nat
    requires AllHex(g)
  {
    if g == "" then j else Number(base, g[1..], j * base + HexVal(g[0]))
  }

  /** A word of an address. */
  predicate IsGroup(g: string) { 1 <= |g| <= 4 && AllHex(g) }

  // ---- Reading numbers ----

  lemma {:induction false} HexRead(g: string, rest: string, j: nat, l: nat)
    requires AllHex(g) && |g| + l <= 4 && j < Pow16(l) && j < 0x10000 && (rest != "" ==> !IsHex(rest[0]))
    ensures Number(16, g, j) < 0x10000 && ReadHex(g + rest, j, l) == Some((Number(16, g, j), rest))
    decreases |g|
  {
    if g == "" {
      assert g + rest == rest;
    } else {
      Powers();
      assert (g + rest)[1..] == g[1..] + rest;
      HexRead(g[1..], rest, j * 16 + HexVal(g[0]), l + 1);
    }
  }

  lemma Powers()
    ensures Pow16(0) == 1 && Pow16(1) == 16 && Pow16(2) == 256 && Pow16(3) == 4096 && Pow16(4) == 0x10000
  {
  }

  /** What was read are the digits at the start. */
  lemma {:induction false} HexWas(t: string, j: nat, l: nat) returns (g: string)
    requires j < 0x10000 && l <= 4 && ReadHex(t, j, l).Some?
    ensures var (v, rest) := ReadHex(t, j, l).value;
            t == g + rest && AllHex(g) && |g| + l <= 4 && v == Number(16, g, j) && (rest != "" ==> !IsHex(rest[0]))
    decreases |t|
  {
    if t != "" && IsHex(t[0]) {
      var h := HexWas(t[1..], j * 16 + HexVal(t[0]), l + 1);
      g := [t[0]] + h;
      assert g[1..] == h && t == [t[0]] + t[1..];
    } else {
      g := "";
    }
  }

  lemma {:induction false} DecRead(g: string, rest: string, j: nat)
    requires AllDec(g) && (rest != "" ==> !IsDec(rest[0]))
    ensures AllHex(g) && ReadDec(g + rest, j) == (Number(10, g, j), rest)
    decreases |g|
  {
    if g == "" {
      assert g + rest == rest;
    } else {
      assert (g + rest)[1..] == g[1..] + rest;
      DecRead(g[1..], rest, j * 10 + HexVal(g[0]));
    }
  }

  lemma {:induction false} DecWas(t: string, j: nat) returns (g: string)
    ensures var (v, rest) := ReadDec(t, j);
            t == g + rest && AllDec(g) && AllHex(g) && v == Number(10, g, j) && (rest != "" ==> !IsDec(rest[0]))
    decreases |t|
  {
    if t != "" && IsDec(t[0]) {
      var h := DecWas(t[1..], j * 10 + HexVal(t[0]));
      g := [t[0]] + h;
      assert g[1..] == h && t == [t[0]] + t[1..];
    } else {
      g := "";
    }
  }

  // ---- Dotted IPv4 addresses ----

  /** Items with a separator between them. */
  function JoinWith(sep: char, items: seq<string>): string {
    if items == [] then "" else if |items| == 1 then items[0] else items[0] + ([sep] + JoinWith(sep, items[1..]))
  }

  /** Numbers with decimal digits, each at most 255; the digits may be missing. */
  ghost predicate Numbers(ds: seq<string>, nums: seq<nat>) {
    |ds| == |nums| &&
    forall k :: 0 <= k < |ds| ==> AllDec(ds[k]) && AllHex(ds[k]) && Number(10, ds[k], 0) == nums[k] <= 255
  }

  lemma NoDot(g: string)
    requires AllDec(g)
    ensures !HasDot(g)
  {
  }

  lemma {:induction false} DottedRead(ds: seq<string>, nums: seq<nat>)
    requires ds != [] && Numbers(ds, nums)
    ensures ParseIp4(JoinWith('.', ds), |ds|) == Some(nums)
    decreases |ds|
  {
    var t := JoinWith('.', ds);
    assert AllDec(ds[0]) && Number(10, ds[0], 0) == nums[0];
    if |ds| == 1 {
      NoDot(ds[0]);
      assert ds[0] + "" == t;
      DecRead(ds[0], "", 0);
      assert nums == [nums[0]];
    } else {
      var rest := "." + JoinWith('.', ds[1..]);
      DecRead(ds[0], rest, 0);
      assert rest[1..] == JoinWith('.', ds[1..]) && t[|ds[0]|] == '.';
      assert Numbers(ds[1..], nums[1..]);
      DottedRead(ds[1..], nums[1..]);
      assert nums == [nums[0]] + nums[1..];
    }
  }

  lemma DotBehind(t: string, g: string, d: string)
    requires t == g + d && !HasDot(t)
    ensures d != "" ==> d[0] != '.'
  {
    if d != "" {
      assert t[|g|] == d[0];
    }
  }

  lemma {:induction false} DottedWas(t: string, n: nat) returns (ds: seq<string>)
    requires n > 0 && ParseIp4(t, n).Some?
    ensures |ds| == n && t == JoinWith('.', ds) && Numbers(ds, ParseIp4(t, n).value)
    decreases n
  {
    var g := DecWas(t, 0);
    var (l, d) := ReadDec(t, 0);
    if n == 1 {
      DotBehind(t, g, d);
      assert t == g;
      ds := [g];
    } else {
      var rest := d[1..];
      var es := DottedWas(rest, n - 1);
      ds := [g] + es;
      assert ds[1..] == es && d == "." + rest;
      NumbersMore(g, l, es, ParseIp4(rest, n - 1).value);
    }
  }

  lemma NumbersMore(g: string, l: nat, es: seq<string>, nums: seq<nat>)
    requires AllDec(g) && AllHex(g) && Number(10, g, 0) == l <= 255 && Numbers(es, nums)
    ensures Numbers([g] + es, [l] + nums)
  {
  }

  /** ip4_pton accepts four numbers with dots between them, and nothing else. */
  lemma DottedIff(t: string, nums: seq<nat>)
    ensures ParseIp4(t, 4) == Some(nums) <==> exists ds :: |ds| == 4 && t == JoinWith('.', ds) && Numbers(ds, nums)
  {
    if ParseIp4(t, 4) == Some(nums) {
      var ds := DottedWas(t, 4);
    }
    if ds :| |ds| == 4 && t == JoinWith('.', ds) && Numbers(ds, nums) {
      DottedRead(ds, nums);
    }
  }

  // ---- Addresses ----

  /** A dotted address at the end of an IPv6 address; its first number has at most four digits. */
  ghost predicate IsDotted(d: string) {
    exists ds, nums :: |ds| == 4 && |ds[0]| <= 4 && d == JoinWith('.', ds) && Numbers(ds, nums)
  }

  /** The words an item stands for. */
  ghost function Words(item: string): (r: seq<nat>)
    requires IsGroup(item) || IsDotted(item)
    ensures |r| == if IsGroup(item) then 1 else 2
  {
    if IsGroup(item) then [Number(16, item, 0)]
    else
      var ds, nums :| |ds| == 4 && |ds[0]| <= 4 && item == JoinWith('.', ds) && Numbers(ds, nums);
      [nums[0] * 256 + nums[1], nums[2] * 256 + nums[3]]
  }

  ghost predicate AllGroups(items: seq<string>) { forall k :: 0 <= k < |items| ==> IsGroup(items[k]) }

  /** Groups, the last of which may be dotted. */
  ghost predicate IsList(items: seq<string>) {
    items != [] && AllGroups(items[..|items| - 1]) && (IsGroup(items[|items| - 1]) || IsDotted(items[|items| - 1]))
  }

  ghost function AllWordsOf(items: seq<string>): (r: seq<nat>)
    requires items == [] || IsList(items)
    ensures items != [] && !IsGroup(items[|items| - 1]) ==> |r| == |items| + 1
    ensures items == [] || IsGroup(items[|items| - 1]) ==> |r| == |items|
    decreases |items|
  {
    if items == [] then [] else ListRest(items); Words(items[0]) + AllWordsOf(items[1..])
  }

  lemma ListRest(items: seq<string>)
    requires IsList(items)
    ensures IsGroup(items[0]) || IsDotted(items[0])
    ensures |items| > 1 ==> IsGroup(items[0]) && IsList(items[1..]) && items[1..][|items| - 2] == items[|items| - 1]
  {
    if |items| > 1 {
      assert items[..|items| - 1][0] == items[0];
      assert items[1..][..|items| - 2] == items[..|items| - 1][1..];
    }
  }

  /** A list with n words before it: there is room, and an address that ends in dotted form is complete or
      has a gap. */
  ghost predicate Fits(items: seq<string>, n: nat, gapped: bool) {
    && IsList(items) && n + |AllWordsOf(items)| <= 8
    && (IsGroup(items[|items| - 1]) || gapped || n + |AllWordsOf(items)| == 8)
  }

  /** s is a text for the address w. */
  ghost predicate IsText(s: string, w: seq<nat>) {
    || (exists items :: Fits(items, 0, false) && s == JoinWith(':', items) && |w| == 8 && w == AllWordsOf(items))
    || (exists a, b :: WithGap(s, w, a, b))
  }

  /** Groups, a gap, and a list. */
  ghost predicate WithGap(s: string, w: seq<nat>, a: seq<string>, b: seq<string>) {
    && AllGroups(a) && (a == [] || IsList(a)) && |a| <= 8 && (b == [] || Fits(b, |a|, true))
    && s == JoinWith(':', a) + ("::" + JoinWith(':', b))
    && w == AllWordsOf(a) + Zeros(8 - |a| - |AllWordsOf(b)|) + AllWordsOf(b)
  }

  // ---- Such texts are accepted ----

  lemma GroupRead(g: string, rest: string)
    requires IsGroup(g) && (rest != "" ==> !IsHex(rest[0]))
    ensures ReadHex(g + rest, 0, 0) == Some((Number(16, g, 0), rest)) && g + rest != "" && (g + rest)[0] != ':'
  {
    HexRead(g, rest, 0, 0);
    assert (g + rest)[0] == g[0];
  }

  lemma GroupEnd(g: string, words: seq<nat>, gap: int)
    requires IsGroup(g) && -1 <= gap <= |words| < 8
    ensures ParseWords(g, words, gap) == Some((words + Words(g), gap))
  {
    GroupRead(g, "");
    assert g + "" == g;
  }

  lemma GroupColon(g: string, rest: string, words: seq<nat>, gap: int)
    requires IsGroup(g) && -1 <= gap <= |words| < 8 && rest != ""
    ensures ParseWords(g + (":" + rest), words, gap) == ParseWords(rest, words + Words(g), gap)
  {
    GroupRead(g, ":" + rest);
    assert (":" + rest)[1..] == rest;
  }

  lemma DottedFirst(d: string, ds: seq<string>, nums: seq<nat>)
    requires |ds| == 4 && |ds[0]| <= 4 && d == JoinWith('.', ds) && Numbers(ds, nums)
    ensures ParseIp4(d, 4) == Some(nums) && d != "" && d[0] != ':' && !IsGroup(d)
    ensures ReadHex(d, 0, 0).Some? && ReadHex(d, 0, 0).value.1 != "" && ReadHex(d, 0, 0).value.1[0] == '.'
  {
    DottedRead(ds, nums);
    var rest := "." + JoinWith('.', ds[1..]);
    assert d == ds[0] + rest && AllDec(ds[0]);
    HexRead(ds[0], rest, 0, 0);
    assert d[|ds[0]|] == '.';
  }

  lemma DottedIs(d: string)
    requires IsDotted(d)
    ensures d != "" && d[0] != ':' && !IsGroup(d) && ParseIp4(d, 4).Some?
    ensures ReadHex(d, 0, 0).Some? && ReadHex(d, 0, 0).value.1 != "" && ReadHex(d, 0, 0).value.1[0] == '.'
  {
    var ds, nums :| |ds| == 4 && |ds[0]| <= 4 && d == JoinWith('.', ds) && Numbers(ds, nums);
    DottedFirst(d, ds, nums);
  }

  lemma DottedWords(d: string)
    requires IsDotted(d) && !IsGroup(d)
    ensures ParseIp4(d, 4).Some?
    ensures var n := ParseIp4(d, 4).value; Words(d) == [n[0] * 256 + n[1], n[2] * 256 + n[3]]
  {
    DottedIs(d);
    forall ds, nums | |ds| == 4 && |ds[0]| <= 4 && d == JoinWith('.', ds) && Numbers(ds, nums)
      ensures ParseIp4(d, 4) == Some(nums)
    {
      DottedRead(ds, nums);
    }
  }

  lemma DottedEnd(d: string, words: seq<nat>, gap: int)
    requires IsDotted(d) && -1 <= gap <= |words| && (|words| == 6 || (|words| < 6 && gap >= 0))
    ensures ParseWords(d, words, gap) == Some((words + Words(d), gap))
  {
    DottedIs(d);
    DottedWords(d);
  }

  lemma ItemStarts(g: string)
    requires IsGroup(g) || IsDotted(g)
    ensures g != "" && g[0] != ':'
  {
    if !IsGroup(g) {
      DottedIs(g);
    }
  }

  lemma ListStarts(items: seq<string>)
    requires IsList(items)
    ensures JoinWith(':', items) != "" && JoinWith(':', items)[0] != ':'
  {
    ListRest(items);
    ItemStarts(items[0]);
  }

  lemma WordsFirst(items: seq<string>, words: seq<nat>)
    requires IsList(items)
    ensures IsGroup(items[0]) || IsDotted(items[0])
    ensures |items| == 1 ==> AllWordsOf(items) == Words(items[0])
    ensures |items| > 1 ==> IsGroup(items[0]) && IsList(items[1..]) &&
                            (words + Words(items[0])) + AllWordsOf(items[1..]) == words + AllWordsOf(items)
  {
    ListRest(items);
    if |items| == 1 {
      assert AllWordsOf(items) == Words(items[0]) + AllWordsOf(items[1..]);
    } else {
      AssocWords(words, Words(items[0]), AllWordsOf(items[1..]));
    }
  }

  lemma AssocWords(x: seq<nat>, y: seq<nat>, z: seq<nat>)
    ensures (x + y) + z == x + (y + z)
  {
  }

  lemma FitsRest(items: seq<string>, n: nat, gapped: bool)
    requires Fits(items, n, gapped) && |items| > 1
    ensures Fits(items[1..], n + 1, gapped) && n < 8
  {
    ListRest(items);
  }

  lemma {:induction false} ListRead(items: seq<string>, words: seq<nat>, gap: int)
    requires -1 <= gap <= |words| && Fits(items, |words|, gap >= 0)
    ensures ParseWords(JoinWith(':', items), words, gap) == Some((words + AllWordsOf(items), gap))
    decreases |items|
  {
    WordsFirst(items, words);
    if |items| == 1 {
      ItemEnd(items, words, gap);
    } else {
      FitsRest(items, |words|, gap >= 0);
      ListStarts(items[1..]);
      GroupColon(items[0], JoinWith(':', items[1..]), words, gap);
      ListRead(items[1..], words + Words(items[0]), gap);
    }
  }

  lemma ItemEnd(items: seq<string>, words: seq<nat>, gap: int)
    requires |items| == 1 && -1 <= gap <= |words| && Fits(items, |words|, gap >= 0)
    ensures ParseWords(items[0], words, gap) == Some((words + Words(items[0]), gap))
  {
    WordsFirst(items, words);
    if IsGroup(items[0]) {
      GroupEnd(items[0], words, gap);
    } else {
      DottedEnd(items[0], words, gap);
    }
  }

  lemma GapStep(rest: string, words: seq<nat>)
    requires |words| <= 8
    ensures ParseWords(":" + rest, words, -1) == ParseWords(rest, words, |words|)
  {
    assert (":" + rest)[1..] == rest;
  }

  lemma {:induction false} GapRead(a: seq<string>, rest: string, words: seq<nat>)
    requires IsList(a) && AllGroups(a) && |words| + |a| <= 8
    ensures |AllWordsOf(a)| == |a|
    ensures ParseWords(JoinWith(':', a) + ("::" + rest), words, -1) ==
            ParseWords(rest, words + AllWordsOf(a), |words| + |a|)
    decreases |a|
  {
    WordsFirst(a, words);
    GapText(a, rest);
    var t := JoinWith(':', a[1..]) + ("::" + rest);
    if |a| == 1 {
      GroupColon(a[0], ":" + rest, words, -1);
      GapStep(rest, words + Words(a[0]));
    } else {
      GroupColon(a[0], t, words, -1);
      GapRead(a[1..], rest, words + Words(a[0]));
    }
  }

  lemma GapText(a: seq<string>, rest: string)
    requires a != []
    ensures JoinWith(':', a) + ("::" + rest) ==
            a[0] + (":" + if |a| == 1 then ":" + rest else JoinWith(':', a[1..]) + ("::" + rest))
  {
    if |a| == 1 {
      TwoColons(rest);
    } else {
      Behind(a[0], JoinWith(':', a[1..]), "::" + rest);
    }
  }

  lemma TwoColons(rest: string)
    ensures "::" + rest == ":" + (":" + rest)
  {
  }

  lemma Behind(x: string, y: string, z: string)
    ensures (x + (":" + y)) + z == x + (":" + (y + z))
  {
    assert (x + (":" + y)) + z == x + ((":" + y) + z);
  }

  /** The list behind the gap, if there is one. */
  lemma AfterGap(b: seq<string>, words: seq<nat>)
    requires |words| <= 8 && (b == [] || Fits(b, |words|, true))
    ensures ParseWords(JoinWith(':', b), words, |words|) == Some((words + AllWordsOf(b), |words|))
  {
    if b == [] {
      assert words + [] == words;
    } else {
      ListRead(b, words, |words|);
    }
  }

  lemma GapExpands(x: seq<nat>, y: seq<nat>)
    requires |x| + |y| <= 8
    ensures Expand(x + y, |x|) == Some(x + Zeros(8 - |x| - |y|) + y)
  {
    assert (x + y)[..|x|] == x && (x + y)[|x|..] == y;
  }

  lemma PlainRead(items: seq<string>)
    requires Fits(items, 0, false) && |AllWordsOf(items)| == 8
    ensures Parse(JoinWith(':', items)) == Some(AllWordsOf(items))
  {
    ListStarts(items);
    ListRead(items, [], -1);
    assert [] + AllWordsOf(items) == AllWordsOf(items);
  }

  lemma GappedRead(s: string, w: seq<nat>, a: seq<string>, b: seq<string>)
    requires WithGap(s, w, a, b)
    ensures Parse(s) == Some(w)
  {
    var x, y := AllWordsOf(a), AllWordsOf(b);
    AfterGap(b, x);
    GapExpands(x, y);
    if a == [] {
      LeadingGap(s, JoinWith(':', b));
    } else {
      LaterGap(s, a, JoinWith(':', b));
    }
  }

  lemma LeadingGap(s: string, t: string)
    requires s == "" + ("::" + t)
    ensures Parse(s) == match ParseWords(t, [], 0) case None => None case Some((words, gap)) => Expand(words, gap)
  {
    assert s == ":" + (":" + t);
    ParseLeadingGap(t);
  }

  lemma LaterGap(s: string, a: seq<string>, t: string)
    requires IsList(a) && AllGroups(a) && |a| <= 8 && s == JoinWith(':', a) + ("::" + t)
    ensures |AllWordsOf(a)| == |a|
    ensures Parse(s) ==
      match ParseWords(t, AllWordsOf(a), |a|) case None => None case Some((words, gap)) => Expand(words, gap)
  {
    GapRead(a, t, []);
    assert [] + AllWordsOf(a) == AllWordsOf(a);
    ListStarts(a);
    assert s[0] == JoinWith(':', a)[0];
  }

  // ---- Only such texts are accepted ----

  lemma OneGroup(g: string, n: nat, gapped: bool)
    requires IsGroup(g) && n < 8
    ensures Fits([g], n, gapped) && AllGroups([g]) && JoinWith(':', [g]) == g
  {
    assert [g][..0] == [];
  }

  lemma OneDotted(d: string, n: nat, gapped: bool)
    requires IsDotted(d) && (n == 6 || (n < 6 && gapped))
    ensures Fits([d], n, gapped) && JoinWith(':', [d]) == d
  {
    assert [d][..0] == [];
    DottedIs(d);
    WordsFirst([d], []);
  }

  lemma MoreItems(g: string, items: seq<string>)
    requires IsGroup(g) && IsList(items)
    ensures IsList([g] + items) && |AllWordsOf([g] + items)| == 1 + |AllWordsOf(items)|
    ensures JoinWith(':', [g] + items) == g + (":" + JoinWith(':', items))
    ensures AllGroups(items) ==> AllGroups([g] + items)
  {
    var all := [g] + items;
    assert all[1..] == items && all[|all| - 1] == items[|items| - 1];
    assert all[..|all| - 1] == [g] + items[..|items| - 1];
  }

  /** The digits before the first dot. */
  lemma FirstDot(t: string, g: string, e: string, h: string, f: string)
    requires t == g + e && t == h + f && AllHex(g) && AllHex(h) && e != "" && f != "" && e[0] == '.' == f[0]
    ensures |g| == |h|
  {
    assert t[|g|] == '.' && t[|h|] == '.';
    HexBefore(t, h, f, |g|);
    HexBefore(t, g, e, |h|);
  }

  lemma HexBefore(t: string, h: string, f: string, k: nat)
    requires t == h + f && AllHex(h) && k < |t| && t[k] == '.'
    ensures |h| <= k
  {
  }

  lemma DottedTail(t: string, g: string, e: string)
    requires t == g + e && AllHex(g) && |g| <= 4 && e != "" && e[0] == '.' && ParseIp4(t, 4).Some?
    ensures IsDotted(t)
  {
    var ds := DottedWas(t, 4);
    assert AllHex(ds[0]);
    FirstDot(t, g, e, ds[0], "." + JoinWith('.', ds[1..]));
  }

  lemma {:induction false} ListWas(t: string, words: seq<nat>, gap: int)
    returns (items: seq<string>, gapped: bool, r: string)
    requires -1 <= gap <= |words| <= 8 && t != "" && t[0] != ':' && ParseWords(t, words, gap).Some?
    ensures IsList(items)
    ensures !gapped ==> Fits(items, |words|, gap >= 0) && t == JoinWith(':', items)
    ensures gapped ==> gap == -1 && AllGroups(items) && |words| + |items| <= 8 && t == JoinWith(':', items) + ("::" + r)
    decreases |t|
  {
    var g := HexWas(t, 0, 0);
    var (j, e) := ReadHex(t, 0, 0).value;
    gapped, r := false, "";
    if |e| > 1 && e[0] == ':' {
      items, gapped, r := ColonWas(t, g, e, words, gap);
    } else if e != "" {
      DottedTail(t, g, e);
      OneDotted(t, |words|, gap >= 0);
      items := [t];
    } else {
      assert g + e == g;
      OneGroup(g, |words|, gap >= 0);
      items := [g];
    }
  }

  /** A group with a colon and more behind it. */
  lemma {:induction false} ColonWas(t: string, g: string, e: string, words: seq<nat>, gap: int)
    returns (items: seq<string>, gapped: bool, r: string)
    requires -1 <= gap <= |words| <= 8 && t != "" && t[0] != ':' && ParseWords(t, words, gap).Some?
    requires t == g + e && AllHex(g) && |g| <= 4 && |e| > 1 && e[0] == ':' && ReadHex(t, 0, 0).Some?
    requires ReadHex(t, 0, 0).value.1 == e
    ensures IsList(items)
    ensures !gapped ==> Fits(items, |words|, gap >= 0) && t == JoinWith(':', items)
    ensures gapped ==> gap == -1 && AllGroups(items) && |words| + |items| <= 8 && t == JoinWith(':', items) + ("::" + r)
    decreases |t|, 0
  {
    var more, j := e[1..], ReadHex(t, 0, 0).value.0;
    assert g != "";
    assert ParseWords(more, words + [j], gap).Some?;
    OneGroup(g, |words|, gap >= 0);
    assert t == g + (":" + more);
    if more[0] == ':' {
      items, gapped, r := [g], true, more[1..];
      assert more == ":" + r;
      TwoColons(r);
    } else {
      var rest;
      rest, gapped, r := ListWas(more, words + [j], gap);
      items := [g] + rest;
      MoreItems(g, rest);
      if gapped {
        Behind(g, JoinWith(':', rest), "::" + r);
      }
    }
  }

  /** What is behind the gap. */
  lemma TailWas(r: string, n: nat, words: seq<nat>) returns (b: seq<string>)
    requires n == |words| <= 8 && ParseWords(r, words, n).Some?
    ensures (b == [] || Fits(b, n, true)) && r == JoinWith(':', b)
  {
    if r == "" {
      b := [];
    } else {
      var gapped, rest;
      b, gapped, rest := ListWas(r, words, n);
    }
  }

  lemma LeadingWas(s: string, w: seq<nat>) returns (b: seq<string>)
    requires Parse(s) == Some(w) && s[0] == ':'
    ensures WithGap(s, w, [], b)
  {
    var r := s[2..];
    assert s == ":" + (":" + r);
    TwoColons(r);
    ParseLeadingGap(r);
    b := TailWas(r, 0, []);
    IsGapped(s, w, [], b, r);
  }

  lemma IsGapped(s: string, w: seq<nat>, a: seq<string>, b: seq<string>, r: string)
    requires Parse(s) == Some(w) && AllGroups(a) && (a == [] || IsList(a)) && |a| <= 8
    requires (b == [] || Fits(b, |a|, true)) && r == JoinWith(':', b) && s == JoinWith(':', a) + ("::" + r)
    ensures WithGap(s, w, a, b)
  {
    var v := AllWordsOf(a) + Zeros(8 - |a| - |AllWordsOf(b)|) + AllWordsOf(b);
    GappedRead(s, v, a, b);
  }

  lemma LaterWas(s: string, w: seq<nat>)
    requires Parse(s) == Some(w) && s[0] != ':'
    ensures IsText(s, w)
  {
    var a, gapped, r := ListWas(s, [], -1);
    if gapped {
      LaterGap(s, a, r);
      var b := TailWas(r, |a|, AllWordsOf(a));
      IsGapped(s, w, a, b, r);
    } else {
      ListRead(a, [], -1);
      assert [] + AllWordsOf(a) == AllWordsOf(a);
    }
  }

  /** ip6_pton accepts exactly the texts of the grammar, and delivers the words they spell. */
  lemma ParseIff(s: string, w: seq<nat>)
    ensures Parse(s) == Some(w) <==> IsText(s, w)
  {
    if Parse(s) == Some(w) {
      if s[0] == ':' {
        var b := LeadingWas(s, w);
      } else {
        LaterWas(s, w);
      }
    }
    if items :| Fits(items, 0, false) && s == JoinWith(':', items) && |w| == 8 && w == AllWordsOf(items) {
      PlainRead(items);
    }
    if a, b :| WithGap(s, w, a, b) {
      GappedRead(s, w, a, b);
    }
  }

  // ---- Printed words ----

  /** Words are printed in lower case, without leading zeros. */
  lemma {:induction false} HexIs(n: nat)
    ensures AllHex(Hex(n)) && (forall k :: 0 <= k < |Hex(n)| ==> Hex(n)[k] in "0123456789abcdef")
    ensures n > 0 ==> Hex(n)[0] != '0'
    decreases n
  {
    DigitIs(n % 16);
    if n >= 16 {
      HexIs(n / 16);
    }
  }

  lemma DigitIs(d: nat)
    requires d < 16
    ensures Digit(d) == "0123456789abcdef"[d]
  {
    HexValIs(Digit(d));
  }

  // ---- Upper and lower case ----

  function LowerChar(c: char): char { if 'A' <= c <= 'Z' then c - 'A' + 'a' else c }

  function Lower(t: string): (r: string)
    ensures |r| == |t| && forall k :: 0 <= k < |t| ==> r[k] == LowerChar(t[k])
  {
    seq(|t|, k requires 0 <= k < |t| => LowerChar(t[k]))
  }

  lemma LowerDigit(c: char)
    ensures IsHex(LowerChar(c)) <==> IsHex(c)
    ensures IsDec(LowerChar(c)) <==> IsDec(c)
    ensures IsHex(c) ==> HexVal(LowerChar(c)) == HexVal(c)
    ensures (LowerChar(c) == ':' <==> c == ':') && (LowerChar(c) == '.' <==> c == '.')
  {
  }

  lemma LowerRest(t: string)
    requires t != ""
    ensures Lower(t)[1..] == Lower(t[1..])
  {
  }

  lemma {:induction false} LowerHex(t: string, j: nat, l: nat)
    requires j < 0x10000
    ensures ReadHex(Lower(t), j, l) ==
            match ReadHex(t, j, l) case None => None case Some((v, rest)) => Some((v, Lower(rest)))
    decreases |t|
  {
    if t != "" {
      LowerDigit(t[0]);
      LowerRest(t);
      if IsHex(t[0]) && j * 16 + HexVal(t[0]) < 0x10000 {
        LowerHex(t[1..], j * 16 + HexVal(t[0]), l + 1);
      }
    }
  }

  lemma {:induction false} LowerDec(t: string, j: nat)
    ensures ReadDec(Lower(t), j) == (ReadDec(t, j).0, Lower(ReadDec(t, j).1))
    decreases |t|
  {
    if t != "" {
      LowerDigit(t[0]);
      LowerRest(t);
      if IsDec(t[0]) {
        LowerDec(t[1..], j * 10 + HexVal(t[0]));
      }
    }
  }

  lemma LowerDot(t: string)
    ensures HasDot(Lower(t)) <==> HasDot(t)
  {
    if HasDot(t) {
      var k :| 0 <= k < |t| && t[k] == '.';
      assert Lower(t)[k] == '.';
    }
  }

  lemma {:induction false} LowerIp4(t: string, n: nat)
    requires n > 0
    ensures ParseIp4(Lower(t), n) == ParseIp4(t, n)
    decreases n
  {
    LowerDec(t, 0);
    LowerDot(t);
    var d := ReadDec(t, 0).1;
    if d != "" {
      LowerDigit(d[0]);
      LowerRest(d);
      if n > 1 {
        LowerIp4(d[1..], n - 1);
      }
    }
  }

  lemma {:induction false} LowerWords(t: string, words: seq<nat>, gap: int)
    requires -1 <= gap <= |words| <= 8
    ensures ParseWords(Lower(t), words, gap) == ParseWords(t, words, gap)
    decreases |t|
  {
    if t != "" {
      LowerDigit(t[0]);
      LowerRest(t);
      if t[0] == ':' {
        if gap < 0 {
          LowerWords(t[1..], words, |words|);
        }
      } else {
        var h := ReadHex(t, 0, 0);
        LowerHex(t, 0, 0);
        if h.Some? {
          if h.value.1 != "" && h.value.1[0] == ':' && |words| < 8 {
            LowerWords(h.value.1[1..], words + [h.value.0], gap);
          }
          LowerWord(t, words, gap, h.value.0, h.value.1);
        }
      }
    }
  }

  /** One round, if the rest behind a colon is read alike. */
  lemma LowerWord(t: string, words: seq<nat>, gap: int, j: nat, e: string)
    requires -1 <= gap <= |words| <= 8 && |e| <= |t|
    requires e != "" && e[0] == ':' && |words| < 8 ==>
               ParseWords(Lower(e[1..]), words + [j], gap) == ParseWords(e[1..], words + [j], gap)
    ensures ParseWord(Lower(t), words, gap, Some((j, Lower(e)))) == ParseWord(t, words, gap, Some((j, e)))
  {
    if e != "" {
      LowerDigit(e[0]);
      if e[0] == ':' {
        LowerColon(t, words, gap, j, e);
      } else {
        LowerIp4(t, 4);
      }
    }
  }

  lemma LowerColon(t: string, words: seq<nat>, gap: int, j: nat, e: string)
    requires -1 <= gap <= |words| <= 8 && 0 < |e| <= |t| && e[0] == ':'
    requires |words| < 8 ==>
               ParseWords(Lower(e[1..]), words + [j], gap) == ParseWords(e[1..], words + [j], gap)
    ensures ParseWord(Lower(t), words, gap, Some((j, Lower(e)))) == ParseWord(t, words, gap, Some((j, e)))
  {
    LowerDigit(e[0]);
    LowerRest(e);
  }

  /** Upper and lower case are read alike. */
  lemma ParseLower(s: string)
    ensures Parse(Lower(s)) == Parse(s)
  {
    if s != "" {
      LowerDigit(s[0]);
      LowerRest(s);
      if |s| > 1 {
        LowerDigit(s[1]);
      }
      LowerWords(s, [], -1);
      LowerWords(s[1..], [], -1);
    }
  }
}
