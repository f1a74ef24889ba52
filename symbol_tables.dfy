/** The dictionary passes of `main` in generate.py that turn the raw symbol
    tables into the C and C++ indexes: collecting man-page symbols,
    dropping or salvaging symbols without a header, merging the man-page
    symbols in, and adding short-name aliases to the C++ index. */
module SymbolTables {
  import opened Text
  import opened ManPages

  /** C headers whose C++ counterparts replace them in the C++ index. */
  const Shadows: map<string, string> := map[
    "assert.h" := "cassert",
    "complex.h" := "ccomplex",
    "ctype.h" := "cctype",
    "errno.h" := "cerrno",
    "fenv.h" := "cfenv",
    "float.h" := "cfloat",
    "inttypes.h" := "cinttypes",
    "limits.h" := "climits",
    "locale.h" := "clocale",
    "math.h" := "cmath",
    "setjmp.h" := "csetjmp",
    "signal.h" := "csignal",
    "stdalign.h" := "cstdalign",
    "stdarg.h" := "cstdarg",
    "stdbool.h" := "cstdbool",
    "stddef.h" := "cstddef",
    "stdint.h" := "cstdint",
    "stdio.h" := "cstdio",
    "stdlib.h" := "cstdlib",
    "string.h" := "cstring",
    "tgmath.h" := "ctgmath",
    "time.h" := "ctime",
    "wchar.h" := "cwchar",
    "wctype.h" := "cwctype"
  ]

  /** `shadows.get(hdr, hdr)`. */
  function ShadowOf(h: string): string
  {
    if h in Shadows then Shadows[h] else h
  }

  /** `set(shadows.get(hdr, hdr) for hdr in hdrs)`. */
  function ShadowImage(hs: set<string>): (r: set<string>)
    ensures r == {} <==> hs == {}
  {
    var r := set h | h in hs :: ShadowOf(h);
    assert forall h | h in hs :: ShadowOf(h) in r;
    r
  }

  /** Every shadowed header ends in `.h`: its second-to-last character is
      a dot. */
  lemma ShadowedEndInDotH()
    ensures forall h | h in Shadows :: |h| >= 2 && h[|h| - 2] == '.'
  {
  }

  /** No replacement header has a dot as its second-to-last character. */
  lemma ReplacementsLackDotH()
    ensures forall h | h in Shadows :: |Shadows[h]| >= 2 && Shadows[h][|Shadows[h]| - 2] != '.'
  {
  }

  /** No replacement header is itself a shadowed C header. */
  lemma ReplacementsAreNotShadowed(h: string)
    requires h in Shadows
    ensures Shadows[h] !in Shadows
  {
    ShadowedEndInDotH();
    ReplacementsLackDotH();
  }

  /** Renaming replaces every shadowed header, keeps every other one, and
      renaming twice is renaming once. */
  lemma ShadowImageProperties(hs: set<string>)
    ensures ShadowImage(hs) !! Shadows.Keys
    ensures hs - Shadows.Keys <= ShadowImage(hs)
    ensures hs !! Shadows.Keys ==> ShadowImage(hs) == hs
    ensures ShadowImage(ShadowImage(hs)) == ShadowImage(hs)
    ensures |ShadowImage(hs)| <= |hs|
    ensures hs != {} ==> ShadowImage(hs) != {}
  {
    forall h | h in hs && h in Shadows ensures ShadowOf(h) !in Shadows {
      ReplacementsAreNotShadowed(h);
    }
    ImageSize(hs);
    if hs != {} {
      var h :| h in hs;
      assert ShadowOf(h) in ShadowImage(hs);
    }
  }

  lemma {:induction false} ImageSize(hs: set<string>)
    ensures |ShadowImage(hs)| <= |hs|
    decreases |hs|
  {
    if hs != {} {
      var h :| h in hs;
      var rest := hs - {h};
      ImageSize(rest);
      assert ShadowImage(hs) == ShadowImage(rest) + {ShadowOf(h)};
    }
  }

  // ---------------------------------------------------------------------
  // Collecting man-page symbols

  /** A symbol table: name to set of headers. */
  type Table = map<string, set<string>>

  /** Report `k` is about `func` and no earlier report is. */
  predicate FirstReportAt(reports: seq<Found>, func: string, k: nat)
    requires k < |reports|
  {
    reports[k].func == func && forall j | 0 <= j < k :: reports[j].func != func
  }

  /** The include set of the first report of `func`. */
  function FirstReport(reports: seq<Found>, func: string): (r: Option<set<string>>)
    ensures r.Some? <==> exists k | 0 <= k < |reports| :: reports[k].func == func
    ensures r.Some? ==> exists k | 0 <= k < |reports| :: FirstReportAt(reports, func, k) && reports[k].includes == r.value
  {
    if |reports| == 0 then None
    else if reports[0].func == func then
      assert FirstReportAt(reports, func, 0);
      Some(reports[0].includes)
    else
      var r := FirstReport(reports[1..], func);
      assert forall k | 1 <= k < |reports| :: reports[k] == reports[1..][k - 1];
      assert r.Some? ==> exists k | 0 <= k < |reports| :: FirstReportAt(reports, func, k) && reports[k].includes == r.value by {
        if r.Some? {
          var k :| 0 <= k < |reports[1..]| && FirstReportAt(reports[1..], func, k) && reports[1..][k].includes == r.value;
          assert FirstReportAt(reports, func, k + 1);
        }
      }
      r
  }

  /** The loop over every man page's reports: the first report of a name
      wins and later ones are ignored. */
  method CollectManSyms(reports: seq<Found>) returns (man: Table)
    ensures forall func :: func in man <==> FirstReport(reports, func).Some?
    ensures forall func | func in man :: man[func] == FirstReport(reports, func).value
  {
    man := map[];
    var i := 0;
    while i < |reports|
      invariant i <= |reports|
      invariant forall func :: func in man <==> FirstReport(reports[..i], func).Some?
      invariant forall func | func in man :: man[func] == FirstReport(reports[..i], func).value
    {
      var f := reports[i];
      forall func {
        FirstReportAppend(reports[..i], f, func);
      }
      assert reports[..i + 1] == reports[..i] + [f];
      if f.func in man {
        i := i + 1;
        continue;
      }
      man := man[f.func := f.includes];
      i := i + 1;
    }
    assert reports[..i] == reports;
  }

  lemma {:induction false} FirstReportAppend(reports: seq<Found>, f: Found, func: string)
    ensures FirstReport(reports + [f], func)
      == (if FirstReport(reports, func).Some? then FirstReport(reports, func)
          else if f.func == func then Some(f.includes) else None)
  {
    if |reports| > 0 {
      assert (reports + [f])[1..] == reports[1..] + [f];
      FirstReportAppend(reports[1..], f, func);
    }
  }

  // ---------------------------------------------------------------------
  // `filter_syms`

  /** `sym.get('header')` is true: a header was found and it is not empty. */
  predicate HasHeader(header: Option<string>)
  {
    header.Some? && header.value != ""
  }

  const StdPrefix: string := "std::"

  /** `name[5:]` of a `std::` name is in `table` and some of its headers
      are shadowed C headers. */
  predicate SalvageableFrom(table: Table, name: string)
  {
    StartsWith(name, StdPrefix) && name[|StdPrefix|..] in table
    && table[name[|StdPrefix|..]] * Shadows.Keys != {}
  }

  /** What `filter_syms` yields for one symbol: its header, or the renamed
      headers of the unprefixed C symbol, else of the unprefixed man-page
      symbol, or nothing. */
  function Filtered(name: string, header: Option<string>, c: Table, man: Table): (r: Option<set<string>>)
    ensures r.Some? <==> HasHeader(header) || SalvageableFrom(c, name) || SalvageableFrom(man, name)
    ensures r.Some? && !HasHeader(header) ==> StartsWith(name, StdPrefix)
  {
    if HasHeader(header) then Some({header.value})
    else if SalvageableFrom(c, name) then Some(ShadowImage(c[name[|StdPrefix|..]]))
    else if SalvageableFrom(man, name) then Some(ShadowImage(man[name[|StdPrefix|..]]))
    else None
  }

  /** `dict(filter_syms(lang, syms))`, with `c` the C table the salvage
      consults. */
  function FilterSyms(syms: map<string, Option<string>>, c: Table, man: Table): (r: Table)
    ensures r.Keys <= syms.Keys
    ensures forall name | name in syms && HasHeader(syms[name]) :: name in r && r[name] == {syms[name].value}
    ensures forall name | name in syms && !HasHeader(syms[name]) && SalvageableFrom(c, name) ::
      name in r && r[name] == ShadowImage(c[name[|StdPrefix|..]])
    ensures forall name | name in syms && !HasHeader(syms[name]) && !SalvageableFrom(c, name) && SalvageableFrom(man, name) ::
      name in r && r[name] == ShadowImage(man[name[|StdPrefix|..]])
    ensures forall name | name in syms && !HasHeader(syms[name]) && !SalvageableFrom(c, name) && !SalvageableFrom(man, name) ::
      name !in r
    ensures forall name | name in r && name in syms && !HasHeader(syms[name]) ::
      StartsWith(name, StdPrefix) && r[name] != {} && r[name] !! Shadows.Keys
  {
    var r := map name | name in syms && Filtered(name, syms[name], c, man).Some? :: Filtered(name, syms[name], c, man).value;
    forall name | name in syms && !HasHeader(syms[name]) && Filtered(name, syms[name], c, man).Some? {
      SalvagedHeaders(name, syms[name], c, man);
    }
    r
  }

  /** A salvaged symbol is a `std::` name and gets a non-empty set with no
      shadowed C header in it. */
  lemma SalvagedHeaders(name: string, header: Option<string>, c: Table, man: Table)
    requires !HasHeader(header) && Filtered(name, header, c, man).Some?
    ensures StartsWith(name, StdPrefix)
    ensures Filtered(name, header, c, man).value != {} && Filtered(name, header, c, man).value !! Shadows.Keys
  {
    var src := if SalvageableFrom(c, name) then c[name[|StdPrefix|..]] else man[name[|StdPrefix|..]];
    ShadowImageProperties(src);
  }

  /** The C pass as the code runs it: inside `filter_syms('C', c_syms)` the
      name `c_syms` still denotes the raw C records, so the first salvage
      test computes `record & set(...)`, which raises a TypeError as soon
      as a headerless `std::x` meets a C record named `x`. `None` is that
      failure. */
  function FilterCAsWritten(raw: map<string, Option<string>>, man: Table): (r: Option<Table>)
    ensures r.Some? ==> r.value.Keys <= raw.Keys
    ensures r.Some? ==> forall name | name in r.value && !HasHeader(raw[name]) :: SalvageableFrom(man, name)
  {
    if exists name | name in raw :: !HasHeader(raw[name]) && StartsWith(name, StdPrefix) && name[|StdPrefix|..] in raw then None
    else Some(FilterSyms(raw, map[], man))
  }

  lemma FilterCAsWrittenFails()
    ensures FilterCAsWritten(map["std::abs" := None, "abs" := Some("stdlib.h")], map[]) == None
  {
    var raw := map["std::abs" := None, "abs" := Some("stdlib.h")];
    assert StartsWith("std::abs", StdPrefix);
    assert "std::abs"[|StdPrefix|..] == "abs";
  }

  /** The C pass as intended: the C table is not yet a name-to-headers
      table, so only the man pages can salvage a C symbol. It agrees with
      the code whenever the code does not fail. */
  function FilterC(raw: map<string, Option<string>>, man: Table): (r: Table)
    ensures FilterCAsWritten(raw, man).Some? ==> FilterCAsWritten(raw, man).value == r
    ensures forall name | name in r && name in raw && !HasHeader(raw[name]) :: SalvageableFrom(man, name)
  {
    FilterSyms(raw, map[], man)
  }

  /** Lines 217-218: the C table is filtered first and the C++ pass
      salvages from the filtered C table. */
  function FilterTables(cRaw: map<string, Option<string>>, cppRaw: map<string, Option<string>>, man: Table): (r: (Table, Table))
    ensures r.0.Keys <= cRaw.Keys && r.1.Keys <= cppRaw.Keys
    ensures forall name | name in cppRaw && !HasHeader(cppRaw[name]) && SalvageableFrom(r.0, name) ::
      name in r.1 && r.1[name] == ShadowImage(r.0[name[|StdPrefix|..]])
  {
    var c := FilterC(cRaw, man);
    (c, FilterSyms(cppRaw, c, man))
  }

  /** The pass order at work: a headerless C++ `std::x` whose C counterpart
      `x` has a shadowed header `h` gets the C++ replacement of `h`, because
      the C++ pass consults the C table after the C pass has filtered it. */
  lemma CppSalvagesFromFilteredC(cRaw: map<string, Option<string>>, cppRaw: map<string, Option<string>>,
                                 man: Table, x: string, h: string)
    requires StdPrefix + x in cppRaw && !HasHeader(cppRaw[StdPrefix + x])
    requires x in cRaw && cRaw[x] == Some(h) && h in Shadows
    ensures StdPrefix + x in FilterTables(cRaw, cppRaw, man).1
    ensures FilterTables(cRaw, cppRaw, man).1[StdPrefix + x] == {Shadows[h]}
  {
    var name := StdPrefix + x;
    var c := FilterC(cRaw, man);
    assert name[|StdPrefix|..] == x;
    assert c[x] == {h};
    assert SalvageableFrom(c, name) by {
      assert h in c[x] * Shadows.Keys;
    }
    assert ShadowImage({h}) == {Shadows[h]} by {
      assert ShadowOf(h) == Shadows[h];
    }
  }

  // ---------------------------------------------------------------------
  // Merging the man-page symbols

  /** `order` lists every key of a dictionary once: the unspecified
      iteration order of a Python 2 dict. */
  predicate Enumerates(order: seq<string>, keys: set<string>)
  {
    && |order| == |keys|
    && (forall k | k in order :: k in keys)
    && (forall k | k in keys :: k in order)
  }

  /** What the merge has done to the C table after the names in `done`. */
  ghost predicate MergedC(man: Table, done: seq<string>, c: Table, c2: Table)
  {
    && (forall n :: n in c2 <==> n in c || n in done)
    && (forall n | n in c :: c2[n] == c[n])
    && (forall n | n in c2 && n !in c :: n in man && c2[n] == man[n])
  }

  /** What the merge has done to the C++ table after the names in `done`,
      with `rename` the renaming of a header set. */
  ghost predicate MergedCpp(man: Table, done: seq<string>, cpp: Table, cpp2: Table, rename: set<string> -> set<string>)
  {
    && (forall n | n in cpp :: n in cpp2 && cpp2[n] == cpp[n])
    && (forall n | n in cpp2 && n !in cpp :: n in man && cpp2[n] == rename(man[n]) && StdPrefix + n !in cpp)
    && (forall n | n in done && n !in cpp && StdPrefix + n !in cpp2 :: n in cpp2)
  }

  lemma MergeStepC(man: Table, done: seq<string>, name: string, c: Table, c2: Table)
    requires name in man && MergedC(man, done, c, c2)
    ensures MergedC(man, done + [name], c, if name !in c2 then c2[name := man[name]] else c2)
  {
  }

  lemma MergeStepCpp(man: Table, done: seq<string>, name: string, cpp: Table, cpp2: Table, rename: set<string> -> set<string>)
    requires name in man && MergedCpp(man, done, cpp, cpp2, rename)
    ensures MergedCpp(man, done + [name], cpp,
      if name !in cpp2 && StdPrefix + name !in cpp2 then cpp2[name := rename(man[name])] else cpp2, rename)
  {
  }

  /** The merge loop of `main` with the header renaming as a parameter: a
      man-page name joins the C table when the C table lacks it, and joins
      the C++ table, with its headers renamed, when neither it nor its
      `std::` form is there yet. The C++ clauses fix `cpp2` completely when
      no man-page name starts with `std::`, as is the case for the names the
      synopsis pattern (letters, digits and `_`) captures; with both `x` and
      `std::x` among the man-page names, whether `x` is added depends on
      the iteration order, and the clauses leave that open. */
  method MergeLoop(man: Table, order: seq<string>, c: Table, cpp: Table, rename: set<string> -> set<string>)
    returns (c2: Table, cpp2: Table)
    requires Enumerates(order, man.Keys)
    ensures forall n :: n in c2 <==> n in c || n in man
    ensures forall n | n in c :: c2[n] == c[n]
    ensures forall n | n in man && n !in c :: c2[n] == man[n]
    ensures forall n | n in cpp :: n in cpp2 && cpp2[n] == cpp[n]
    ensures forall n | n in cpp2 && n !in cpp ::
      n in man && cpp2[n] == rename(man[n]) && StdPrefix + n !in cpp
    ensures forall n | n in man && n !in cpp && StdPrefix + n !in cpp2 :: n in cpp2
  {
    c2, cpp2 := c, cpp;
    var i := 0;
    while i < |order|
      invariant i <= |order|
      invariant MergedC(man, order[..i], c, c2)
      invariant MergedCpp(man, order[..i], cpp, cpp2, rename)
    {
      var name := order[i];
      var hdrs := man[name];
      assert order[..i + 1] == order[..i] + [name];
      MergeStepC(man, order[..i], name, c, c2);
      MergeStepCpp(man, order[..i], name, cpp, cpp2, rename);
      if name !in c2 {
        c2 := c2[name := hdrs];
      }
      if name !in cpp2 && StdPrefix + name !in cpp2 {
        cpp2 := cpp2[name := rename(hdrs)];
      }
      i := i + 1;
    }
    assert order[..i] == order;
  }

  /** The merge of the man-page symbols as `main` does it, renaming with
      the shadow table. */
  method MergeManSyms(man: Table, order: seq<string>, c: Table, cpp: Table) returns (c2: Table, cpp2: Table)
    requires Enumerates(order, man.Keys)
    ensures forall n :: n in c2 <==> n in c || n in man
    ensures forall n | n in c :: c2[n] == c[n]
    ensures forall n | n in man && n !in c :: c2[n] == man[n]
    ensures forall n | n in cpp :: n in cpp2 && cpp2[n] == cpp[n]
    ensures forall n | n in cpp2 && n !in cpp ::
      n in man && cpp2[n] == ShadowImage(man[n]) && StdPrefix + n !in cpp
    ensures forall n | n in man && n !in cpp && StdPrefix + n !in cpp2 :: n in cpp2
    ensures forall n | n in cpp2 && n !in cpp :: cpp2[n] !! Shadows.Keys
  {
    c2, cpp2 := MergeLoop(man, order, c, cpp, ShadowImage);
    forall n | n in cpp2 && n !in cpp ensures cpp2[n] !! Shadows.Keys {
      ShadowImageProperties(man[n]);
    }
  }

  // ---------------------------------------------------------------------
  // Decanonicalisation

  /** An index value: a header set, or (for an added short name) the
      qualified name it stands for. */
  datatype Entry = HeaderSet(headers: set<string>) | Alias(canonical: string)

  /** The last index below `k` where `::` starts. */
  function LastSepBelow(name: string, k: nat): (r: Option<nat>)
    requires k <= |name|
    ensures r.Some? ==> r.value < k && OccursAt(name, "::", r.value)
    ensures r.Some? ==> forall j: nat | r.value < j < k :: !OccursAt(name, "::", j)
    ensures r.None? ==> forall j: nat | j < k :: !OccursAt(name, "::", j)
  {
    if k == 0 then None
    else if OccursAt(name, "::", k - 1) then Some(k - 1)
    else LastSepBelow(name, k - 1)
  }

  /** `name[name.rindex('::') + 2:]`, or `None` where `rindex` raises. */
  function ShortName(name: string): Option<string>
  {
    match LastSepBelow(name, |name|)
    case None => None
    case Some(i) => Some(name[i + 2..])
  }

  /** A name has a short name exactly when it contains `::`; the short name
      follows the last `::` and contains none itself. */
  lemma ShortNameSpec(name: string)
    ensures ShortName(name).None? <==> !Contains(name, "::")
    ensures ShortName(name).Some? ==>
      |ShortName(name).value| + 2 <= |name| && name[|name| - |ShortName(name).value| - 2..] == "::" + ShortName(name).value
    ensures ShortName(name).Some? ==> !Contains(ShortName(name).value, "::")
    ensures ShortName(name).Some? ==>
      forall j: nat | |name| - |ShortName(name).value| - 2 < j :: !OccursAt(name, "::", j)
  {
    match LastSepBelow(name, |name|)
    case None =>
    case Some(i) =>
      var s := name[i + 2..];
      assert name[i..] == "::" + s;
      assert !Contains(s, "::") by {
        forall j: nat | j <= |s| ensures OccursAt(s, "::", j) ==> OccursAt(name, "::", i + 2 + j) {
          if j + 2 <= |s| {
            assert name[i + 2 + j..i + 2 + j + 2] == s[j..j + 2];
          }
        }
      }
  }

  /** `order[k]` has short name `short` and no earlier name has it. */
  predicate FirstShortAt(order: seq<string>, short: string, k: nat)
    requires k < |order|
  {
    ShortName(order[k]) == Some(short) && forall j | 0 <= j < k :: ShortName(order[j]) != Some(short)
  }

  /** The first qualified name in `order` whose short name is `short`. */
  function FirstWithShort(order: seq<string>, short: string): (r: Option<string>)
    ensures r.Some? ==> r.value in order && ShortName(r.value) == Some(short)
    ensures r.Some? ==> exists k | 0 <= k < |order| :: FirstShortAt(order, short, k) && order[k] == r.value
    ensures r.None? ==> forall k | 0 <= k < |order| :: ShortName(order[k]) != Some(short)
  {
    if |order| == 0 then None
    else if ShortName(order[0]) == Some(short) then
      assert FirstShortAt(order, short, 0);
      Some(order[0])
    else
      var r := FirstWithShort(order[1..], short);
      assert forall k | 1 <= k < |order| :: order[k] == order[1..][k - 1];
      assert r.Some? ==> exists k | 0 <= k < |order| :: FirstShortAt(order, short, k) && order[k] == r.value by {
        if r.Some? {
          var k :| 0 <= k < |order[1..]| && FirstShortAt(order[1..], short, k) && order[1..][k] == r.value;
          assert FirstShortAt(order, short, k + 1);
        }
      }
      r
  }

  lemma {:induction false} FirstWithShortAppend(order: seq<string>, name: string, short: string)
    ensures FirstWithShort(order + [name], short)
      == (if FirstWithShort(order, short).Some? then FirstWithShort(order, short)
          else if ShortName(name) == Some(short) then Some(name) else None)
  {
    if |order| > 0 {
      assert (order + [name])[1..] == order[1..] + [name];
      FirstWithShortAppend(order[1..], name, short);
    }
  }

  /** What the decanonicalisation loop has built after the names in `done`. */
  ghost predicate Decanonicalized(cpp: Table, done: seq<string>, r: map<string, Entry>)
  {
    && (forall n | n in cpp :: n in r && r[n] == HeaderSet(cpp[n]))
    && (forall s | s !in cpp :: s in r <==> FirstWithShort(done, s).Some?)
    && (forall s | s in r && s !in cpp :: r[s] == Alias(FirstWithShort(done, s).value))
  }

  /** One name's turn: its short name becomes an alias unless present. */
  function AddAlias(r: map<string, Entry>, name: string): (r2: map<string, Entry>)
    ensures forall k | k in r :: k in r2 && r2[k] == r[k]
    ensures forall k | k in r2 && k !in r :: Some(k) == ShortName(name) && r2[k] == Alias(name)
    ensures ShortName(name).Some? && ShortName(name).value !in r ==> r2 == r[ShortName(name).value := Alias(name)]
    ensures ShortName(name).None? || ShortName(name).value in r ==> r2 == r
  {
    match ShortName(name)
    case None => r
    case Some(short) => if short !in r then r[short := Alias(name)] else r
  }

  lemma DecanonicalizeStep(cpp: Table, done: seq<string>, name: string, r: map<string, Entry>)
    requires Decanonicalized(cpp, done, r)
    ensures Decanonicalized(cpp, done + [name], AddAlias(r, name))
  {
    var r2 := AddAlias(r, name);
    forall s | s !in cpp ensures s in r2 <==> FirstWithShort(done + [name], s).Some? {
      FirstWithShortAppend(done, name, s);
    }
    forall s | s in r2 && s !in cpp ensures r2[s] == Alias(FirstWithShort(done + [name], s).value) {
      FirstWithShortAppend(done, name, s);
    }
  }

  /** The decanonicalisation loop over a snapshot of the C++ items: each
      qualified name adds its short name as an alias unless that name is
      already present, including as an alias added earlier in the loop. */
  method Decanonicalize(cpp: Table, order: seq<string>) returns (r: map<string, Entry>)
    requires Enumerates(order, cpp.Keys)
    ensures forall n | n in cpp :: n in r && r[n] == HeaderSet(cpp[n])
    ensures forall s | s !in cpp :: s in r <==> FirstWithShort(order, s).Some?
    ensures forall s | s in r && s !in cpp :: r[s] == Alias(FirstWithShort(order, s).value)
    ensures forall n | n in cpp && ShortName(n).Some? :: ShortName(n).value in r
    ensures forall s | s in r && r[s].Alias? :: r[s].canonical in r && r[r[s].canonical].HeaderSet?
  {
    r := map n | n in cpp :: HeaderSet(cpp[n]);
    var i := 0;
    while i < |order|
      invariant i <= |order|
      invariant Decanonicalized(cpp, order[..i], r)
    {
      var name := order[i];
      assert order[..i + 1] == order[..i] + [name];
      DecanonicalizeStep(cpp, order[..i], name, r);
      match ShortName(name) {
        case None =>
        case Some(short) =>
          if short !in r {
            r := r[short := Alias(name)];
          }
      }
      i := i + 1;
    }
    assert order[..i] == order;
    DecanonicalizedAll(cpp, order, r);
  }

  lemma DecanonicalizedAll(cpp: Table, order: seq<string>, r: map<string, Entry>)
    requires Enumerates(order, cpp.Keys) && Decanonicalized(cpp, order, r)
    ensures forall n | n in cpp && ShortName(n).Some? :: ShortName(n).value in r
    ensures forall s | s in r && r[s].Alias? :: r[s].canonical in r && r[r[s].canonical].HeaderSet?
  {
    forall n | n in cpp && ShortName(n).Some? ensures ShortName(n).value in r {
      var k :| 0 <= k < |order| && order[k] == n;
    }
  }
}
