/**
 Mount options: the quote-aware splitter used twice, and the string that carries what stage one
 passes on to stage two (fuse/hsfs_main.c, nfs3/hsi_nfs3_mount.c).
 */
module Options {
  import opened Basics

  // ----- what an option string means -----

  /** The first comma at or after `i` that no quotes enclose, or the end; `open` is the quote state at `i`. */
  function Cut(s: string, i: nat, open: bool): (c: nat)
    requires i <= |s|
    ensures i <= c <= |s|
    ensures c < |s| ==> s[c] == ','
    decreases |s| - i
  {
    if i == |s| then i
    else
      var o := open != (s[i] == '"');
      if !o && s[i] == ',' then i else Cut(s, i + 1, o)
  }

  /** The quote state at the end. */
  function Ends(s: string, i: nat, open: bool): bool
    requires i <= |s|
    decreases |s| - i
  {
    if i == |s| then open else Ends(s, i + 1, open != (s[i] == '"'))
  }

  /** The items from `b` on. A last item in open quotes is none; nor is the nothing after a last comma. */
  function Items(s: string, b: nat): (l: seq<string>)
    requires b <= |s|
    decreases |s| - b
  {
    if b == |s| then []
    else
      var c := Cut(s, b, false);
      if c < |s| then [s[b..c]] + Items(s, c + 1) else if Ends(s, b, false) then [] else [s[b..]]
  }

  /** An odd number of double quotes from `b` up to `i`: position `i` is quoted. */
  ghost predicate Quoted(s: string, b: nat, i: nat)
    requires b <= i <= |s|
  {
    multiset(s[b..i])['"'] % 2 == 1
  }

  lemma QuotedNext(s: string, b: nat, i: nat)
    requires b <= i < |s|
    ensures Quoted(s, b, i + 1) <==> Quoted(s, b, i) != (s[i] == '"')
  {
    assert s[b..i + 1] == s[b..i] + [s[i]];
  }

  /** The cut is the first comma outside quotes, and the end state says whether the quotes are open there. */
  lemma {:induction false} CutMeans(s: string, b: nat, i: nat, open: bool)
    requires b <= i <= |s| && (open <==> Quoted(s, b, i))
    ensures forall j :: i <= j < Cut(s, i, open) && s[j] == ',' ==> Quoted(s, b, j)
    ensures Cut(s, i, open) < |s| ==> s[Cut(s, i, open)] == ',' && !Quoted(s, b, Cut(s, i, open))
    ensures Ends(s, i, open) <==> Quoted(s, b, |s|)
    decreases |s| - i
  {
    if i < |s| {
      QuotedNext(s, b, i);
      CutMeans(s, b, i + 1, open != (s[i] == '"'));
    }
  }

  /** An item as such: its quotes are closed and enclose all its commas. */
  ghost predicate Clean(t: string) {
    Cut(t, 0, false) == |t| && !Ends(t, 0, false)
  }

  /** The same in numbers of quotes: an even number in all, an odd one before each comma. */
  lemma CleanMeans(t: string)
    ensures Clean(t) <==> !Quoted(t, 0, |t|) && forall j :: 0 <= j < |t| && t[j] == ',' ==> Quoted(t, 0, j)
  {
    assert t[0..0] == "";
    CutMeans(t, 0, 0, false);
  }

  ghost predicate AllClean(l: seq<string>) {
    forall i {:trigger Clean(l[i])} :: 0 <= i < |l| ==> Clean(l[i])
  }

  function Join(l: seq<string>): string {
    if |l| == 0 then "" else if |l| == 1 then l[0] else l[0] + "," + Join(l[1..])
  }

  lemma {:induction false} ItemsStep(s: string, b: nat, c: nat)
    requires b <= |s| && c == Cut(s, b, false) && c < |s|
    ensures Items(s, b) == [s[b..c]] + Items(s, c + 1)
  {
  }

  lemma {:induction false} JoinFirst(t: string, l: seq<string>)
    ensures Join([t] + l) == if l == [] then t else t + "," + Join(l)
  {
    assert ([t] + l)[1..] == l;
  }

  /** A string whose rest is `j`, with or without a last comma. */
  lemma JoinStep(s: string, b: nat, c: nat, j: string)
    requires b <= c < |s| && s[c] == ','
    ensures s[c + 1..] == j ==> s[b..] == s[b..c] + "," + j
    ensures s[c + 1..] == j + "," ==> s[b..] == s[b..c] + "," + j + ","
    ensures s[c + 1..] == "" ==> s[b..] == s[b..c] + ","
  {
    assert s[b..] == s[b..c] + "," + s[c + 1..];
    assert s[b..c] + "," + (j + ",") == s[b..c] + "," + j + ",";
  }

  /** Splitting loses nothing but one last comma, as long as the quotes are closed. */
  lemma {:induction false} JoinItems(s: string, b: nat)
    requires b <= |s| && !Ends(s, b, false)
    ensures var l := Items(s, b);
            (s[b..] == Join(l) || s[b..] == Join(l) + ",") && (l == [] <==> b == |s|)
    decreases |s| - b
  {
    if b < |s| {
      var c := Cut(s, b, false);
      if c < |s| {
        CutState(s, b, false);
        JoinItems(s, c + 1);
        ItemsStep(s, b, c);
        JoinFirst(s[b..c], Items(s, c + 1));
        JoinStep(s, b, c, Join(Items(s, c + 1)));
      }
    }
  }

  /** The quotes are closed at an unquoted comma. */
  lemma {:induction false} CutState(s: string, i: nat, open: bool)
    requires i <= |s| && Cut(s, i, open) < |s|
    ensures Ends(s, i, open) == Ends(s, Cut(s, i, open) + 1, false)
    decreases |s| - i
  {
    var o := open != (s[i] == '"');
    if o || s[i] != ',' {
      CutState(s, i + 1, o);
    }
  }

  /** The string from `t` on has its quotes open at the end and no comma outside quotes. */
  ghost predicate OpenTail(s: string, t: nat) {
    t < |s| && Quoted(s, t, |s|) && forall j :: t <= j < |s| && s[j] == ',' ==> Quoted(s, t, j)
  }

  lemma NoCutOpen(s: string, b: nat)
    requires b <= |s| && Ends(s, b, false) && Cut(s, b, false) == |s|
    ensures OpenTail(s, b)
  {
    assert s[b..b] == "";
    CutMeans(s, b, b, false);
  }

  lemma LeftStep(s: string, b: nat, c: nat, t: nat, rest: seq<string>)
    requires b <= c < t <= |s| && s[c] == ',' && s[c + 1..t] == if rest == [] then "" else Join(rest) + ","
    ensures s[b..t] == Join([s[b..c]] + rest) + ","
  {
    JoinFirst(s[b..c], rest);
    assert s[b..t] == s[b..c] + "," + s[c + 1..t];
    assert s[b..c] + "," + (Join(rest) + ",") == s[b..c] + "," + Join(rest) + ",";
  }

  /** With quotes left open, what is lost is the part after the last comma outside quotes. */
  lemma {:induction false} OpenItems(s: string, b: nat) returns (t: nat)
    requires b <= |s| && Ends(s, b, false)
    ensures b <= t <= |s| && OpenTail(s, t)
    ensures s[b..t] == if Items(s, b) == [] then "" else Join(Items(s, b)) + ","
    decreases |s| - b
  {
    var c := Cut(s, b, false);
    if c == |s| {
      t := b;
      NoCutOpen(s, b);
    } else {
      CutState(s, b, false);
      t := OpenItems(s, c + 1);
      ItemsStep(s, b, c);
      LeftStep(s, b, c, t, Items(s, c + 1));
    }
  }

  /** The part of a string up to its cut, on its own. */
  lemma {:induction false} Segment(s: string, b: nat, i: nat, open: bool, t: string)
    requires b <= i <= |s| && t == s[b..Cut(s, i, open)]
    ensures Cut(t, i - b, open) == |t|
    ensures Cut(s, i, open) < |s| ==> !Ends(t, i - b, open)
    ensures Cut(s, i, open) == |s| ==> Ends(t, i - b, open) == Ends(s, i, open)
    decreases |s| - i
  {
    if i < Cut(s, i, open) {
      assert t[i - b] == s[i];
      Segment(s, b, i + 1, open != (s[i] == '"'), t);
    }
  }

  lemma {:induction false} ItemsClean(s: string, b: nat)
    requires b <= |s|
    ensures AllClean(Items(s, b))
    decreases |s| - b
  {
    if b < |s| {
      var c := Cut(s, b, false);
      Segment(s, b, b, false, s[b..c]);
      if c < |s| {
        ItemsClean(s, c + 1);
      } else {
        assert s[b..c] == s[b..];
      }
    }
  }

  /** A clean item inside a longer string is passed over. */
  lemma {:induction false} PassOver(s: string, b: nat, t: string, j: nat, open: bool)
    requires b + |t| <= |s| && s[b..b + |t|] == t && j <= |t| && Cut(t, j, open) == |t|
    ensures Cut(s, b + j, open) == Cut(s, b + |t|, Ends(t, j, open))
    ensures Ends(s, b + j, open) == Ends(s, b + |t|, Ends(t, j, open))
    decreases |t| - j
  {
    if j < |t| {
      assert s[b + j] == s[b..b + |t|][j] == t[j];
      PassOver(s, b, t, j + 1, open != (t[j] == '"'));
    }
  }

  /** What splitting a joined list gives back: an empty last item is lost. */
  function Trim(l: seq<string>): seq<string> {
    if l != [] && l[|l| - 1] == "" then l[..|l| - 1] else l
  }

  lemma Parts(s: string, b: nat, t: string, rest: string)
    requires b <= |s| && s[b..] == t + "," + rest
    ensures var e := b + |t|; e < |s| && s[b..e] == t && s[e] == ',' && s[e + 1..] == rest
  {
    var e := b + |t|;
    assert s[b..e] == s[b..][..|t|] == t;
    assert s[e] == s[b..][|t|] == ',';
    assert s[e + 1..] == s[b..][|t| + 1..] == rest;
  }

  lemma {:induction false} ItemsFirst(s: string, b: nat, t: string, rest: string)
    requires b <= |s| && s[b..] == t + "," + rest && Clean(t)
    ensures b + |t| + 1 <= |s| && s[b + |t| + 1..] == rest && Items(s, b) == [t] + Items(s, b + |t| + 1)
  {
    Parts(s, b, t, rest);
    PassOver(s, b, t, 0, false);
    ItemsStep(s, b, b + |t|);
  }

  lemma {:induction false} ItemsCons(s: string, b: nat, t: string, rest: string, items: seq<string>)
    requires b + |t| + 1 <= |s| && s[b..] == t + "," + rest && Clean(t) && Items(s, b + |t| + 1) == items
    ensures Items(s, b) == [t] + items
  {
    ItemsFirst(s, b, t, rest);
  }

  lemma {:induction false} ItemsLast(s: string, b: nat, t: string)
    requires b <= |s| && s[b..] == t && Clean(t)
    ensures Items(s, b) == if t == "" then [] else [t]
  {
    assert s[b..b + |t|] == t;
    PassOver(s, b, t, 0, false);
  }

  lemma AllCleanTail(l: seq<string>)
    requires AllClean(l) && l != []
    ensures AllClean(l[1..])
  {
    forall i | 0 <= i < |l| - 1 ensures Clean(l[1..][i]) { assert Clean(l[i + 1]); }
  }

  lemma {:induction false} TrimTail(l: seq<string>)
    requires |l| > 1
    ensures Trim(l) == [l[0]] + Trim(l[1..])
  {
  }

  lemma {:induction false} ItemsJoin(s: string, b: nat, l: seq<string>)
    requires b <= |s| && s[b..] == Join(l) && AllClean(l)
    ensures Items(s, b) == Trim(l)
    decreases |l|
  {
    if |l| == 1 {
      assert Clean(l[0]);
      ItemsLast(s, b, l[0]);
    } else if |l| > 1 {
      assert Clean(l[0]);
      var t, tail := l[0], l[1..];
      Parts(s, b, t, Join(tail));
      AllCleanTail(l);
      ItemsJoin(s, b + |t| + 1, tail);
      ItemsCons(s, b, t, Join(tail), Trim(tail));
      TrimTail(l);
    }
  }

  // ----- the splitter, in place -----

  /** A C string: no terminator inside. */
  ghost predicate CString(s: string) {
    forall i :: 0 <= i < |s| ==> s[i] != '\0'
  }

  /** The string that starts at `b` in a terminated buffer. */
  method StringAt(a: array<char>, b: nat, ghost e: nat) returns (t: string)
    requires b <= e < a.Length && a[e] == '\0' && forall i :: b <= i < e ==> a[i] != '\0'
    ensures t == a[b..e]
  {
    var i := b;
    while a[i] != '\0'
      invariant b <= i <= e
      decreases e - i
    {
      i := i + 1;
    }
    t := a[b..i];
  }

  /** Where the loop stands: `items` handed on, the next one begun at `b`, read up to `p`. */
  ghost predicate Reading(s: string, items: seq<string>, b: nat, p: nat, open: bool) {
    && b <= p <= |s|
    && Items(s, 0) == items + Items(s, b)
    && Cut(s, b, false) == Cut(s, p, open)
    && Ends(s, b, false) == Ends(s, p, open)
  }

  /** A character inside an item. */
  lemma {:induction false} Inside(s: string, items: seq<string>, b: nat, p: nat, open: bool)
    requires Reading(s, items, b, p, open) && p < |s|
    ensures var o := open != (s[p] == '"'); o || s[p] != ',' ==> Reading(s, items, b, p + 1, o)
  {
  }

  /** An item ends at its comma, or with the string. */
  lemma {:induction false} Handed(s: string, items: seq<string>, b: nat, p: nat, open: bool, e: nat)
    requires Reading(s, items, b, p, open) && p < |s| && open == (s[p] == '"')
    requires e == (if s[p] == ',' then p else p + 1) && (s[p] != ',' ==> p + 1 == |s|)
    ensures Reading(s, items + [s[b..e]], p + 1, p + 1, false)
  {
    if s[p] == ',' {
      ItemsStep(s, b, p);
    } else {
      assert Cut(s, p, open) == Cut(s, p + 1, false) == |s| && !Ends(s, p, open);
      assert s[b..] == s[b..e];
    }
    assert Items(s, b) == [s[b..e]] + Items(s, p + 1);
  }

  /** The loop of `hsi_parse_opts` and of `hsi_nfs3_parse_options` on its copy of the options; the items are
      returned in the order they are handed on. */
  method Split(options: string) returns (items: seq<string>)
    requires CString(options)
    ensures items == Items(options, 0)
  {
    var n := |options|;
    var a := new char[n + 1](i => if 0 <= i < n then options[i] else '\0');
    var p, b, begun, open := 0, 0, false, false;
    items := [];
    while a[p] != '\0'
      invariant Reading(options, items, b, p, open) && (!begun ==> b == p && !open)
      invariant forall i :: b <= i < n ==> a[i] == options[i]
      invariant a[n] == '\0'
      invariant p == n && begun ==> open
      decreases n - p
    {
      if !begun {
        b, begun := p, true;
      }
      ghost var wasOpen := open;
      Inside(options, items, b, p, open);
      if a[p] == '"' {
        open := !open;
      }
      if !open {
        if a[p] == ',' {
          a[p] := '\0';
        }
        if a[p] == '\0' || a[p + 1] == '\0' {
          ghost var e := if a[p] == '\0' then p else p + 1;
          var item := StringAt(a, b, e);
          assert item == options[b..e];
          Handed(options, items, b, p, wasOpen, e);
          items := items + [item];
          b, begun := p + 1, false;
        }
      }
      p := p + 1;
    }
  }

  // ----- stage one: what is passed on -----

  /** Options of the table and of the FUSE library are dealt with in stage one. */
  predicate PassedOn(opt: string, table: seq<string>, lib: string -> bool) {
    opt !in table && !lib(opt)
  }

  function Passed(items: seq<string>, table: seq<string>, lib: string -> bool): seq<string> {
    if items == [] then []
    else
      var rest := Passed(items[..|items| - 1], table, lib);
      var last := items[|items| - 1];
      if PassedOn(last, table, lib) then rest + [last] else rest
  }

  /** The passed items are a filter, in order: those that are neither in the table nor the library's. */
  lemma {:induction false} PassedFilters(a: seq<string>, x: string, b: seq<string>, table: seq<string>, lib: string -> bool)
    ensures Passed([], table, lib) == []
    ensures Passed(a + [x] + b, table, lib) ==
            Passed(a, table, lib) + (if x !in table && !lib(x) then [x] else []) + Passed(b, table, lib)
  {
    var one: seq<string> := if x !in table && !lib(x) then [x] else [];
    if b == [] {
      assert a + [x] + b == a + [x] && (a + [x])[..|a|] == a;
      assert Passed(a, table, lib) + one + [] == Passed(a, table, lib) + one;
    } else {
      var all, n := a + [x] + b, |b| - 1;
      assert all[..|all| - 1] == a + [x] + b[..n] && all[|all| - 1] == b[n];
      PassedFilters(a, x, b[..n], table, lib);
    }
  }

  /** `extra` with one more option. */
  function Appended(extra: string, opt: string): string {
    if extra == "" then opt else extra + "," + opt
  }

  /** `strcat` into a buffer of `cap` characters, terminator included. */
  method Concat(dst: string, src: string, cap: int) returns (r: string)
    requires |dst| + |src| + 1 <= cap
    ensures r == dst + src
  {
    r := dst + src;
  }

  /** `hsi_parse_opt`, as far as the options passed on go; the room left is an unsigned 64-bit number. */
  method ParseOpt(opt: string, table: seq<string>, lib: string -> bool, extra: string, cap: int) returns (r: string)
    requires table != [] && cap < 0x1_0000_0000_0000_0000
    requires |Appended(extra, opt)| < cap && |extra| < cap
    ensures r == if PassedOn(opt, table, lib) then Appended(extra, opt) else extra
    ensures opt in table || lib(opt) ==> r == extra
    ensures opt !in table && !lib(opt) ==> r == if extra == "" then opt else extra + "," + opt
  {
    r := extra;
    for i := 0 to |table|
      invariant opt !in table[..i] && (i > 0 ==> !lib(opt))
    {
      if opt == table[i] {
        return;
      } else if lib(opt) {
        return;
      }
    }
    assert table[..|table|] == table;
    var len := Wrap(cap - |r|);
    if r != "" {
      len := Wrap(len - 1);
      if len > 0 {
        r := Concat(r, ",", cap);
      }
    }
    len := Wrap(len - |opt|);
    if len > 0 {
      r := Concat(r, opt, cap);
    }
  }

  /** The list joined, leading empty options skipped: an empty string does not get a comma. */
  function Extra(l: seq<string>): string {
    if l == [] then "" else Appended(Extra(l[..|l| - 1]), l[|l| - 1])
  }

  /** Characters and separators of a list of items. */
  function Weight(l: seq<string>): nat {
    if l == [] then 0 else Weight(l[..|l| - 1]) + |l[|l| - 1]| + 1
  }

  lemma {:induction false} WeightFirst(t: string, l: seq<string>)
    ensures Weight([t] + l) == |t| + 1 + Weight(l)
  {
    if l != [] {
      WeightFirst(t, l[..|l| - 1]);
      assert ([t] + l)[..|l|] == [t] + l[..|l| - 1];
    } else {
      assert [t] + l == [t];
    }
  }

  /** The items of a string are no longer than the string. */
  lemma {:induction false} ItemsWeight(s: string, b: nat)
    requires b <= |s|
    ensures Weight(Items(s, b)) <= |s| - b + 1
    decreases |s| - b
  {
    if b < |s| {
      var c := Cut(s, b, false);
      if c < |s| {
        ItemsWeight(s, c + 1);
        WeightFirst(s[b..c], Items(s, c + 1));
      }
    }
  }

  lemma {:induction false} WeightPrefix(l: seq<string>, k: nat)
    requires k < |l|
    ensures Weight(l[..k]) + |l[k]| + 1 <= Weight(l)
  {
    if k == |l| - 1 {
    } else {
      WeightPrefix(l[..|l| - 1], k);
      assert l[..|l| - 1][..k] == l[..k];
    }
  }

  /** `hsi_parse_opts`: every string of options, whatever its quotes, leaves room for what is passed on. */
  method ParseOpts(options: string, table: seq<string>, lib: string -> bool) returns (udata: string)
    requires CString(options) && table != [] && |options| < 0xffff_ffff_ffff_ffff
    ensures udata == Extra(Passed(Items(options, 0), table, lib))
    ensures |udata| <= |options|
  {
    var items := Split(options);
    var cap := |options| + 1;
    ItemsWeight(options, 0);
    udata := "";
    for i := 0 to |items|
      invariant udata == Extra(Passed(items[..i], table, lib))
      invariant udata == "" || |udata| + 1 <= Weight(items[..i])
    {
      WeightPrefix(items, i);
      ghost var l := items[..i + 1];
      assert l[..i] == items[..i];
      udata := ParseOpt(items[i], table, lib, udata, cap);
    }
    assert items[..|items|] == items;
  }

  // ----- stage two sees the same options -----

  function SkipEmpty(l: seq<string>): (r: seq<string>)
    ensures r != [] ==> r[0] != ""
    ensures |r| <= |l| && (r == l <==> l == [] || l[0] != "")
  {
    if l != [] && l[0] == "" then SkipEmpty(l[1..]) else l
  }

  lemma {:induction false} SkipLast(l: seq<string>)
    requires l != []
    ensures var rest, t := SkipEmpty(l[..|l| - 1]), l[|l| - 1];
            SkipEmpty(l) == if rest == [] && t == "" then [] else rest + [t]
  {
    if |l| > 1 && l[0] == "" {
      assert l[1..][..|l| - 2] == l[..|l| - 1][1..];
      SkipLast(l[1..]);
    }
  }

  lemma {:induction false} JoinLast(l: seq<string>, t: string)
    requires l != []
    ensures Join(l + [t]) == Join(l) + "," + t
  {
    assert (l + [t])[1..] == l[1..] + [t];
    if |l| > 1 {
      JoinLast(l[1..], t);
    }
  }

  lemma {:induction false} ExtraJoins(l: seq<string>)
    ensures Extra(l) == Join(SkipEmpty(l))
  {
    if l != [] {
      var rest, t := SkipEmpty(l[..|l| - 1]), l[|l| - 1];
      ExtraJoins(l[..|l| - 1]);
      SkipLast(l);
      if rest != [] {
        JoinLast(rest, t);
        assert Join(rest) != "";
      }
    }
  }

  /** The round trip: what comes back, and exactly when it is what was passed on. */
  lemma StageTwo(l: seq<string>)
    requires AllClean(l)
    ensures Items(Extra(l), 0) == Trim(SkipEmpty(l))
    ensures Items(Extra(l), 0) == l <==> l == [] || (l[0] != "" && l[|l| - 1] != "")
  {
    var s := Extra(l);
    ExtraJoins(l);
    SkipClean(l);
    assert s[0..] == s;
    ItemsJoin(s, 0, SkipEmpty(l));
  }

  lemma {:induction false} SkipClean(l: seq<string>)
    requires AllClean(l)
    ensures AllClean(SkipEmpty(l))
  {
    if l != [] && l[0] == "" {
      AllCleanTail(l);
      SkipClean(l[1..]);
    }
  }

  /** What is passed on is clean and terminated like the items it is taken from. */
  lemma {:induction false} PassedClean(items: seq<string>, table: seq<string>, lib: string -> bool)
    requires AllClean(items) && forall i :: 0 <= i < |items| ==> CString(items[i])
    ensures AllClean(Passed(items, table, lib)) && CString(Extra(Passed(items, table, lib)))
  {
    if items != [] {
      PassedClean(items[..|items| - 1], table, lib);
      var rest, last := Passed(items[..|items| - 1], table, lib), items[|items| - 1];
      assert Clean(last);
      assert (rest + [last])[..|rest|] == rest;
    }
  }

  lemma {:induction false} ItemsCString(s: string, b: nat)
    requires b <= |s| && CString(s)
    ensures forall i :: 0 <= i < |Items(s, b)| ==> CString(Items(s, b)[i])
    decreases |s| - b
  {
    if b < |s| && Cut(s, b, false) < |s| {
      ItemsCString(s, Cut(s, b, false) + 1);
    }
  }

  /** How many options stage two takes before it meets one that fills its 128-character buffer. */
  function Taken(l: seq<string>): (k: nat)
    ensures k <= |l| && (forall i :: 0 <= i < k ==> |l[i]| < 128) && (k < |l| ==> |l[k]| >= 128)
  {
    if l == [] || |l[0]| >= 128 then 0 else 1 + Taken(l[1..])
  }

  /** The tokenizer of `hsi_nfs3_parse_options`: the options it takes, and whether it refuses the string for one
      that is too long. */
  method Resplit(passed: string) returns (again: seq<string>, bad: bool)
    requires CString(passed)
    ensures var l := Items(passed, 0); again == l[..Taken(l)] && (bad <==> Taken(l) < |l|)
  {
    var items := Split(passed);
    var k := 0;
    assert items[0..] == items;
    while k < |items| && |items[k]| < 128
      invariant k <= |items| && Taken(items) == k + Taken(items[k..])
    {
      assert items[k..][1..] == items[k + 1..];
      k := k + 1;
    }
    return items[..k], k < |items|;
  }

  /** Both stages: the options stage two finds are those stage one passed on, in their order. */
  method Stages(options: string, table: seq<string>, lib: string -> bool)
    returns (passed: string, again: seq<string>, bad: bool)
    requires CString(options) && table != [] && |options| < 0xffff_ffff_ffff_ffff
    ensures var l := Passed(Items(options, 0), table, lib);
            && var found := Trim(SkipEmpty(l));
            && again == found[..Taken(found)] && (bad <==> Taken(found) < |found|)
            && (!bad ==> (again == l <==> l == [] || (l[0] != "" && l[|l| - 1] != "")))
  {
    passed := ParseOpts(options, table, lib);
    ItemsClean(options, 0);
    ItemsCString(options, 0);
    PassedClean(Items(options, 0), table, lib);
    again, bad := Resplit(passed);
    StageTwo(Passed(Items(options, 0), table, lib));
  }
}
