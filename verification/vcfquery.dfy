/** The small pieces of logic of `bcftools query` (vcfquery.c): the header
    comparison, the format string built from the `-a` annotation list, the
    rule that at most one `-i`/`-e` filter expression may be given, and what
    a filtered site does to the per-sample pass mask and whether it is
    printed. */
module VcfQuery {
  import opened Wrappers

  datatype Result<T> = Success(value: T) | Failure(error: string)

  /* ---------------------------------------------------------------- */
  /* compare_header                                                   */
  /* ---------------------------------------------------------------- */

  /** compare_header: the difference of the lengths when they differ,
      otherwise 1 as soon as an entry differs and 0 when all are equal. */
  method CompareHeader(a: seq<string>, b: seq<string>) returns (r: int)
    ensures |a| != |b| ==> r == |a| - |b|
    ensures |a| == |b| ==> (r == 0 <==> a == b) && (r == 1 <==> a != b)
    ensures r == 0 <==> a == b
  {
    if |a| != |b| {
      return |a| - |b|;
    }
    var i := 0;
    while i < |a|
      invariant 0 <= i <= |a|
      invariant a[..i] == b[..i]
    {
      if a[i] != b[i] {
        return 1;
      }
      i := i + 1;
    }
    assert a == a[..i] && b == b[..i];
    return 0;
  }

  /* ---------------------------------------------------------------- */
  /* The -a format string                                             */
  /* ---------------------------------------------------------------- */

  /** The fixed columns every `-a` format starts with; the trailing `%`
      opens the first annotation's tag. */
  const ANNOTS_HEAD: string := "%CHROM\t%POS\t%MASK\t%REF\t%ALT\t%"

  /** The annotation list with every `,` replaced by a tab and a `%`, the
      other characters kept in order. */
  function Tabbed(arg: string): string
  {
    if |arg| == 0 then ""
    else Tabbed(arg[..|arg| - 1]) + (if arg[|arg| - 1] == ',' then "\t%" else [arg[|arg| - 1]])
  }

  /** The number of commas in `s`. */
  function Commas(s: string): nat
  {
    if |s| == 0 then 0 else Commas(s[..|s| - 1]) + (if s[|s| - 1] == ',' then 1 else 0)
  }

  /** The format string of `-a arg`: the fixed columns, the tabbed list and
      a newline. */
  function AnnotsFormat(arg: string): string
  {
    ANNOTS_HEAD + Tabbed(arg) + "\n"
  }

  /** The `-a` case of main_vcfquery, appending to the string one character
      of the argument at a time. */
  method BuildAnnotsFormat(arg: string) returns (fmt: string)
    ensures fmt == AnnotsFormat(arg)
    ensures ',' !in fmt
    ensures |fmt| == 30 + |arg| + Commas(arg)
  {
    fmt := ANNOTS_HEAD;
    var p := 0;
    while p < |arg|
      invariant 0 <= p <= |arg|
      invariant fmt == ANNOTS_HEAD + Tabbed(arg[..p])
    {
      assert arg[..p + 1][..p] == arg[..p];
      if arg[p] == ',' {
        fmt := fmt + "\t%";
      } else {
        fmt := fmt + [arg[p]];
      }
      p := p + 1;
    }
    assert arg[..p] == arg;
    fmt := fmt + "\n";
    FormatHasNoComma(arg);
    FormatLength(arg);
  }

  /** Tabbing removes every comma. */
  lemma {:induction false} TabbedHasNoComma(arg: string)
    ensures ',' !in Tabbed(arg)
  {
    if |arg| > 0 {
      TabbedHasNoComma(arg[..|arg| - 1]);
    }
  }

  /** A `-a` format string holds no comma. */
  lemma FormatHasNoComma(arg: string)
    ensures ',' !in AnnotsFormat(arg)
  {
    TabbedHasNoComma(arg);
    assert ',' !in ANNOTS_HEAD;
  }

  /** Each comma grows by one character. */
  lemma {:induction false} TabbedLength(arg: string)
    ensures |Tabbed(arg)| == |arg| + Commas(arg)
  {
    if |arg| > 0 {
      TabbedLength(arg[..|arg| - 1]);
    }
  }

  /** A `-a` format string is 30 characters longer than the list, plus one
      per comma. */
  lemma FormatLength(arg: string)
    ensures |AnnotsFormat(arg)| == 30 + |arg| + Commas(arg)
  {
    TabbedLength(arg);
  }

  /** Turns every tab-and-`%` back into a comma, reading from the end. */
  function Untabbed(s: string): string
  {
    if |s| == 0 then ""
    else if |s| >= 2 && s[|s| - 2] == '\t' && s[|s| - 1] == '%' then Untabbed(s[..|s| - 2]) + [',']
    else Untabbed(s[..|s| - 1]) + [s[|s| - 1]]
  }

  /** A trailing tab-and-`%` reads back as a comma. */
  lemma UntabbedComma(x: string)
    ensures Untabbed(x + "\t%") == Untabbed(x) + [',']
  {
    var y := x + "\t%";
    assert y[..|y| - 2] == x;
  }

  /** Any other trailing character reads back as itself. */
  lemma UntabbedChar(x: string, c: char)
    requires c != '%' || |x| == 0 || x[|x| - 1] != '\t'
    ensures Untabbed(x + [c]) == Untabbed(x) + [c]
  {
    var y := x + [c];
    assert y[..|y| - 1] == x;
  }

  /** The tabbed list of an argument without tabs ends in no tab. */
  lemma TabbedEnd(arg: string)
    requires '\t' !in arg && |arg| > 0
    ensures |Tabbed(arg)| > 0 && Tabbed(arg)[|Tabbed(arg)| - 1] != '\t'
  {
  }

  /** The list can be read back from its tabbed form when it holds no tab
      of its own. */
  lemma {:induction false} TabbedRoundTrip(arg: string)
    requires '\t' !in arg
    ensures Untabbed(Tabbed(arg)) == arg
  {
    if |arg| > 0 {
      var front := arg[..|arg| - 1];
      var c := arg[|arg| - 1];
      NoTabInFront(arg);
      TabbedRoundTrip(front);
      UntabbedTabbedLast(front, c);
      assert arg == front + [c];
    }
  }

  lemma NoTabInFront(arg: string)
    requires '\t' !in arg && |arg| > 0
    ensures '\t' !in arg[..|arg| - 1] && arg[|arg| - 1] != '\t'
  {
    var front := arg[..|arg| - 1];
    forall i | 0 <= i < |front| ensures front[i] != '\t' {
      assert front[i] == arg[i];
    }
  }

  /** Tabbing one more character and reading it back gives that character. */
  lemma UntabbedTabbedLast(front: string, c: char)
    requires '\t' !in front && c != '\t'
    ensures Untabbed(Tabbed(front + [c])) == Untabbed(Tabbed(front)) + [c]
  {
    var a := front + [c];
    assert a[..|a| - 1] == front && a[|a| - 1] == c;
    if c == ',' {
      UntabbedComma(Tabbed(front));
    } else {
      if |front| > 0 {
        TabbedEnd(front);
      }
      UntabbedChar(Tabbed(front), c);
    }
  }

  /* ---------------------------------------------------------------- */
  /* -i / -e                                                          */
  /* ---------------------------------------------------------------- */

  /** Filter logic bits: include or exclude the sites that match. */
  const FLT_INCLUDE: bv32 := 1
  const FLT_EXCLUDE: bv32 := 2

  /** The options of main_vcfquery as far as the filter is concerned. */
  datatype Opt = Include(expr: string) | Exclude(expr: string) | OtherOpt

  /** The filter expression and its logic after the options are read. */
  datatype Filter = Filter(expr: string, logic: bv32)

  /** The number of `-i` and `-e` options. */
  function FilterOpts(opts: seq<Opt>): nat
  {
    if |opts| == 0 then 0 else FilterOpts(opts[..|opts| - 1]) + (if opts[|opts| - 1].OtherOpt? then 0 else 1)
  }

  /** The filter a lone `-i` or `-e` option sets. */
  function FilterOf(o: Opt): Filter
    requires !o.OtherOpt?
  {
    match o
    case Include(e) => Filter(e, FLT_INCLUDE)
    case Exclude(e) => Filter(e, FLT_EXCLUDE)
  }

  /** The `-i` and `-e` cases of main_vcfquery over the whole option list:
      the second filter option is an error; otherwise the one given, if
      any, sets the expression and ors its bit into the logic, which
      starts at 0. */
  method ParseFilter(opts: seq<Opt>) returns (res: Result<Option<Filter>>)
    ensures res.Failure? <==> FilterOpts(opts) >= 2
    ensures FilterOpts(opts) == 0 ==> res == Success(None)
    ensures FilterOpts(opts) == 1 ==> exists k :: 0 <= k < |opts| && !opts[k].OtherOpt? && res == Success(Some(FilterOf(opts[k])))
    ensures res.Success? && res.value.Some? ==> res.value.value.logic == FLT_INCLUDE || res.value.value.logic == FLT_EXCLUDE
  {
    var filterStr: Option<string> := None;
    var logic: bv32 := 0;
    ghost var at := 0;
    for i := 0 to |opts|
      invariant FilterOpts(opts[..i]) <= 1
      invariant FilterOpts(opts[..i]) == 0 <==> filterStr.None?
      invariant FilterOpts(opts[..i]) == 0 ==> logic == 0
      invariant filterStr.Some? ==> 0 <= at < i && !opts[at].OtherOpt? && Filter(filterStr.value, logic) == FilterOf(opts[at])
    {
      assert opts[..i + 1][..i] == opts[..i];
      if !opts[i].OtherOpt? {
        if filterStr.Some? {
          PrefixCount(opts, i + 1);
          return Failure("only one -i or -e expression can be given, and they cannot be combined");
        }
        var bit := if opts[i].Exclude? then FLT_EXCLUDE else FLT_INCLUDE;
        filterStr, logic, at := Some(opts[i].expr), logic | bit, i;
      }
    }
    assert opts[..|opts|] == opts;
    if filterStr.None? {
      return Success(None);
    }
    res := Success(Some(Filter(filterStr.value, logic)));
    assert !opts[at].OtherOpt? && res == Success(Some(FilterOf(opts[at])));
  }

  /** Options after a prefix only add to the count. */
  lemma {:induction false} PrefixCount(opts: seq<Opt>, i: nat)
    requires i <= |opts|
    ensures FilterOpts(opts[..i]) <= FilterOpts(opts)
  {
    if i < |opts| {
      var front := opts[..|opts| - 1];
      assert opts[..i] == front[..i];
      PrefixCount(front, i);
    } else {
      assert opts[..i] == opts;
    }
  }

  /* ---------------------------------------------------------------- */
  /* The sample mask of a filtered site (query_vcf)                   */
  /* ---------------------------------------------------------------- */

  /** A flipped mask entry: 0 for a sample that passed, 1 for one that
      did not. */
  function Flip(b: bv8): (r: bv8)
    ensures r == 0 <==> b != 0
    ensures r == 0 || r == 1
  {
    if b != 0 then 0 else 1
  }

  /** The mask after the exclude-mode flip of its first `nSample` entries. */
  function FlippedMask(mask: seq<bv8>, nSample: nat): (r: seq<bv8>)
    requires nSample <= |mask|
    ensures |r| == |mask| && r[nSample..] == mask[nSample..]
  {
    seq(|mask|, i requires 0 <= i < |mask| => if i < nSample then Flip(mask[i]) else mask[i])
  }

  /** Every sample of the mask passes (1) or fails (0). */
  predicate ZeroOne(mask: seq<bv8>, nSample: nat)
    requires nSample <= |mask|
  {
    forall i :: 0 <= i < nSample ==> mask[i] == 0 || mask[i] == 1
  }

  /** The flip turns a 0/1 mask into a 0/1 mask, flipping it again gives the
      mask back, and the flipped mask has a failing sample exactly when the
      original had a passing one. */
  lemma FlipMaskTwice(mask: seq<bv8>, nSample: nat)
    requires nSample <= |mask| && ZeroOne(mask, nSample)
    ensures ZeroOne(FlippedMask(mask, nSample), nSample)
    ensures FlippedMask(FlippedMask(mask, nSample), nSample) == mask
    ensures (exists i :: 0 <= i < nSample && FlippedMask(mask, nSample)[i] == 0)
        <==> (exists i :: 0 <= i < nSample && mask[i] != 0)
  {
    var once := FlippedMask(mask, nSample);
    forall i | 0 <= i < |mask|
      ensures FlippedMask(once, nSample)[i] == mask[i]
    {
      if i < nSample {
        assert once[i] == Flip(mask[i]);
      }
    }
  }

  /** The exclude-mode flip over the first `nSample` entries: each is
      negated, and the result says whether some sample did not pass. */
  method FlipMask(mask: array<bv8>, nSample: nat) returns (some: bool)
    requires nSample <= mask.Length
    modifies mask
    ensures forall i :: 0 <= i < nSample ==> mask[i] == Flip(old(mask[i]))
    ensures mask[..] == FlippedMask(old(mask[..]), nSample)
    ensures some <==> exists i :: 0 <= i < nSample && old(mask[i]) == 0
  {
    some := false;
    for i := 0 to nSample
      invariant forall k :: 0 <= k < i ==> mask[k] == Flip(old(mask[k]))
      invariant forall k :: i <= k < mask.Length ==> mask[k] == old(mask[k])
      invariant some <==> exists k :: 0 <= k < i && old(mask[k]) == 0
    {
      if mask[i] != 0 {
        mask[i] := 0;
      } else {
        mask[i] := 1;
        some := true;
      }
    }
  }

  /** The failing-site branch: every sample is set to pass. */
  method PassAll(mask: array<bv8>, nSample: nat)
    requires nSample <= mask.Length
    modifies mask
    ensures forall i :: 0 <= i < nSample ==> mask[i] == 1
    ensures mask[nSample..] == old(mask[nSample..])
  {
    for i := 0 to nSample
      invariant forall k :: 0 <= k < i ==> mask[k] == 1
      invariant forall k :: i <= k < mask.Length ==> mask[k] == old(mask[k])
    {
      mask[i] := 1;
    }
  }

  /** The filter step of query_vcf for one site, after filter_test has
      given `pass` and filled the mask (absent when the filter keeps no
      per-sample result). With the exclude bit set, a passing site is
      skipped unless a mask exists and FORMAT fields are unpacked for the
      output, in which case the mask is negated and the site printed when
      some sample did not pass; a failing site is printed with every
      sample passing. Without it, only passing sites are printed. With no
      filter every site is printed. */
  method FilterSite(filter: Option<Filter>, pass: bool, mask: Option<array<bv8>>, nSample: nat, fmtUnpacked: bool)
    returns (shown: bool)
    requires mask.Some? ==> nSample <= mask.value.Length
    modifies if mask.Some? then {mask.value} else {}
    ensures filter.None? ==> shown
    ensures filter.Some? && filter.value.logic & FLT_EXCLUDE == 0 ==> shown == pass
    ensures filter.Some? && filter.value.logic & FLT_EXCLUDE != 0 && pass && (mask.None? || !fmtUnpacked) ==> !shown
    ensures filter.Some? && filter.value.logic & FLT_EXCLUDE != 0 && pass && mask.Some? && fmtUnpacked ==>
      (forall i :: 0 <= i < nSample ==> mask.value[i] == Flip(old(mask.value[i])))
      && (shown <==> exists i :: 0 <= i < nSample && old(mask.value[i]) == 0)
    ensures filter.Some? && filter.value.logic & FLT_EXCLUDE != 0 && !pass ==>
      shown && (mask.Some? ==> forall i :: 0 <= i < nSample ==> mask.value[i] == 1)
    ensures mask.Some? ==> mask.value[nSample..] == old(mask.value[nSample..])
    ensures mask.Some? && !(filter.Some? && filter.value.logic & FLT_EXCLUDE != 0 && (pass ==> fmtUnpacked)) ==>
      mask.value[..] == old(mask.value[..])
  {
    if filter.None? {
      return true;
    }
    if filter.value.logic & FLT_EXCLUDE != 0 {
      if pass {
        if mask.None? || !fmtUnpacked {
          return false;
        }
        shown := FlipMask(mask.value, nSample);
      } else {
        if mask.Some? {
          PassAll(mask.value, nSample);
        }
        shown := true;
      }
    } else {
      shown := pass;
    }
  }

  /** After the exclude-mode flip, the samples marked to print are exactly
      those the expression did not select: a sample passes the flipped mask
      if and only if it failed the original one. */
  lemma FlippedSelection(before: seq<bv8>, after: seq<bv8>)
    requires |before| == |after|
    requires forall i :: 0 <= i < |before| ==> after[i] == Flip(before[i])
    ensures forall i :: 0 <= i < |before| ==> (after[i] != 0 <==> before[i] == 0)
    ensures (exists i :: 0 <= i < |after| && after[i] != 0) <==> (exists i :: 0 <= i < |before| && before[i] == 0)
  {
    forall i | 0 <= i < |before|
      ensures after[i] != 0 <==> before[i] == 0
    {
    }
  }

  /** The options leave the logic with exactly one of the two bits, so the
      exclude branch runs exactly for an `-e` expression. */
  lemma ExcludeBitOfExclude(o: Opt)
    requires !o.OtherOpt?
    ensures FilterOf(o).logic & FLT_EXCLUDE != 0 <==> o.Exclude?
  {
  }
}
