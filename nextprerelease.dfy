/**
 * `getNextBetaVersion`: the next `vX.Y.Z-beta.N` tag. It continues the newest
 * beta when that beta leads to a version above the next stable one, and
 * otherwise numbers betas of the next stable version one past the highest
 * existing number (or from 0). The `git tag` listing is a parameter.
 */
module NextPrerelease {
  import opened Text
  import opened Results
  import opened Semver
  import opened NextRelease

  const BetaInfix: string := "-beta."

  /** `/^v\d+\.\d+\.\d+-beta\.\d+$/.test(t)`: a stable tag, `-beta.`, and digits. */
  predicate IsBetaTag(t: string) {
    var p := IndexOf(t, BetaInfix);
    p < |t| && IsStrictVersion(t[..p]) && IsDigits(t[p + |BetaInfix|..])
  }

  /** `t.replace(/-beta\.\d+$/, "")`: the stable version the beta leads up to. */
  function BetaBase(t: string): (r: string)
    requires IsBetaTag(t)
    ensures IsStrictVersion(r)
  {
    t[..IndexOf(t, BetaInfix)]
  }

  /** The digits after `-beta.`. */
  function BetaNumeral(t: string): (r: string)
    requires IsBetaTag(t)
    ensures IsDigits(r)
  {
    t[IndexOf(t, BetaInfix) + |BetaInfix|..]
  }

  /** `parseInt(…, 10)` of the beta number. */
  function BetaNum(t: string): nat
    requires IsBetaTag(t)
  {
    DigitsValue(BetaNumeral(t))
  }

  /** A beta tag is its base, `-beta.` and its numeral. */
  lemma BetaTagParts(t: string)
    requires IsBetaTag(t)
    ensures t == BetaBase(t) + BetaInfix + BetaNumeral(t)
  {
    var p := IndexOf(t, BetaInfix);
    SliceThree(t, p, p + |BetaInfix|);
  }

  /** Conversely, a stable tag, `-beta.` and digits make a beta tag whose parts are those. */
  lemma BetaTagOf(base: string, ds: string)
    requires IsStrictVersion(base) && IsDigits(ds)
    ensures IsBetaTag(base + BetaInfix + ds)
    ensures BetaBase(base + BetaInfix + ds) == base && BetaNumeral(base + BetaInfix + ds) == ds
  {
    var t := base + BetaInfix + ds;
    StrictVersionShape(base);
    LacksFirstChar(base, BetaInfix);
    IndexOfSeparator(base, BetaInfix, ds);
    assert t[..|base|] == base;
    assert t[|base| + |BetaInfix|..] == ds;
  }

  /** `${base}-beta.${n}`. */
  function FormatBeta(base: string, n: nat): string {
    base + BetaInfix + NatToString(n)
  }

  /** A formatted beta tag parses back to its base and number. */
  lemma FormatBetaParse(base: string, n: nat)
    requires IsStrictVersion(base)
    ensures IsBetaTag(FormatBeta(base, n))
    ensures BetaBase(FormatBeta(base, n)) == base && BetaNum(FormatBeta(base, n)) == n
  {
    BetaTagOf(base, NatToString(n));
    NatToStringRoundTrip(n);
  }

  /** `latestBeta.split("-beta.")[1]` is the numeral. */
  lemma SplitOnInfix(t: string)
    requires IsBetaTag(t)
    ensures SplitOn(t, BetaInfix) == [BetaBase(t), BetaNumeral(t)]
  {
    BetaTagParts(t);
    StrictVersionShape(BetaBase(t));
    SplitTwo(t, BetaBase(t), BetaNumeral(t));
  }

  lemma SplitTwo(t: string, base: string, ds: string)
    requires t == base + BetaInfix + ds && IsDigits(ds)
    requires '-' !in base && |base| > 0 && IsDigit(base[|base| - 1])
    ensures SplitOn(t, BetaInfix) == [base, ds]
  {
    LacksFirstChar(base, BetaInfix);
    LacksFirstChar(ds, BetaInfix);
    assert [base, ds][1..] == [ds];
    assert Join([base, ds], BetaInfix) == t;
    SplitJoinOn([base, ds], BetaInfix);
  }

  /** `tag.split(".").pop()` is the numeral too, so both readings of the number agree. */
  lemma LastDotPiece(t: string)
    requires IsBetaTag(t)
    ensures var r := SplitOn(t, "."); r[|r| - 1] == BetaNumeral(t)
  {
    BetaTagParts(t);
    LastDotOf(t, BetaBase(t), BetaNumeral(t));
  }

  lemma LastDotOf(t: string, base: string, ds: string)
    requires t == base + BetaInfix + ds && IsDigits(ds)
    ensures var r := SplitOn(t, "."); r[|r| - 1] == ds
  {
    assert t == (base + "-beta") + ['.'] + ds;
    SplitLastPiece(base + "-beta", '.', ds);
  }

  /**
   * `tag.startsWith(`${v}-beta.`)` for a stable `v` holds exactly when the
   * beta's base is `v`.
   */
  lemma StartsWithBase(t: string, v: string)
    requires IsBetaTag(t) && IsStrictVersion(v)
    ensures StartsWith(t, v + BetaInfix) <==> BetaBase(t) == v
  {
    BetaTagParts(t);
    StrictVersionShape(BetaBase(t));
    StrictVersionShape(v);
    PrefixIsBase(t, BetaBase(t), BetaNumeral(t), v);
  }

  lemma PrefixIsBase(t: string, base: string, ds: string, v: string)
    requires t == base + BetaInfix + ds && '-' !in base && '-' !in v
    ensures StartsWith(t, v + BetaInfix) <==> base == v
  {
    if StartsWith(t, v + BetaInfix) {
      assert t[|v|] == (v + BetaInfix)[|v|] == '-';
      assert forall i :: 0 <= i < |v| ==> t[i] == v[i];
      assert forall i :: 0 <= i < |base| ==> t[i] == base[i];
      assert t[|base|] == '-';
      assert |v| == |base|;
      assert v == t[..|v|] == base;
    } else {
      assert t[..|base + BetaInfix|] == base + BetaInfix;
    }
  }

  /** The numbers a beta tag is ordered by: its base's triple, then its beta number. */
  function BetaKey(t: string): (k: seq<nat>)
    requires IsBetaTag(t)
    ensures |k| == 4
  {
    ParseVersion(BetaBase(t)) + [BetaNum(t)]
  }

  /** Comparing keys compares the triples first and the beta numbers second. */
  lemma KeyOrder(a: seq<nat>, x: nat, b: seq<nat>, y: nat)
    requires |a| == |b|
    ensures LexGreater(a + [x], b + [y]) <==> LexGreater(a, b) || (a == b && x > y)
  {
    var a', b' := a + [x], b + [y];
    if LexGreater(a', b') {
      var k :| 0 <= k < |a'| && a'[..k] == b'[..k] && a'[k] > b'[k];
      if k < |a| {
        assert a[..k] == a'[..k] && b[..k] == b'[..k];
      } else {
        assert a == a'[..k] && b == b'[..k];
      }
    }
    if LexGreater(a, b) {
      var k :| 0 <= k < |a| && a[..k] == b[..k] && a[k] > b[k];
      assert a'[..k] == a[..k] && b'[..k] == b[..k];
    } else if a == b && x > y {
      assert a'[..|a|] == a && b'[..|b|] == b;
    }
  }

  /** "Not greater" chains: `a <= b <= c` gives `a <= c`. */
  lemma NotGreaterTransitive(a: seq<nat>, b: seq<nat>, c: seq<nat>)
    requires |a| == |b| == |c| && !LexGreater(a, b) && !LexGreater(b, c)
    ensures !LexGreater(a, c)
  {
    if LexGreater(a, c) && b != c {
      LexConnected(b, c);
      LexTransitive(a, c, b);
    }
  }

  /** `a >= b > c` gives `a > c`. */
  lemma AtLeastThenGreater(a: seq<nat>, b: seq<nat>, c: seq<nat>)
    requires |a| == |b| == |c| && !LexGreater(b, a) && LexGreater(b, c)
    ensures LexGreater(a, c)
  {
    if a != b {
      LexConnected(a, b);
      LexTransitive(a, b, c);
    }
  }

  /** `tags.filter((tag) => /^v\d+\.\d+\.\d+-beta\.\d+$/.test(tag))`, in order. */
  function BetaTags(tags: seq<string>): (r: seq<string>)
    ensures forall t :: t in r ==> t in tags && IsBetaTag(t)
    ensures forall t :: t in tags && IsBetaTag(t) ==> t in r
  {
    if tags == [] then []
    else if IsBetaTag(tags[0]) then [tags[0]] + BetaTags(tags[1..])
    else BetaTags(tags[1..])
  }

  predicate AllBeta(ts: seq<string>) {
    forall t :: t in ts ==> IsBetaTag(t)
  }

  /**
   * `betaTags[betaTags.length - 1]` after the numeric sort: a beta tag with
   * the greatest key, the later one among equal keys.
   */
  function LatestBeta(betas: seq<string>): (r: Option<string>)
    requires AllBeta(betas)
    ensures r.None? <==> betas == []
    ensures r.Some? ==> r.value in betas && IsBetaTag(r.value)
    ensures r.Some? ==> forall t :: t in betas ==> !LexGreater(BetaKey(t), BetaKey(r.value))
  {
    if betas == [] then None
    else
      var init := betas[..|betas| - 1];
      var last := betas[|betas| - 1];
      assert betas == init + [last];
      var prev := LatestBeta(init);
      if prev.Some? && GreaterFrom(BetaKey(prev.value), BetaKey(last), 0) then
        GreaterFromIsLex(BetaKey(prev.value), BetaKey(last), 0);
        LexAsymmetric(BetaKey(prev.value), BetaKey(last));
        prev
      else
        assert forall t :: t in betas ==> !LexGreater(BetaKey(t), BetaKey(last)) by {
          forall t | t in betas ensures !LexGreater(BetaKey(t), BetaKey(last)) {
            if t != last {
              assert t in init;
              GreaterFromIsLex(BetaKey(prev.value), BetaKey(last), 0);
              NotGreaterTransitive(BetaKey(t), BetaKey(prev.value), BetaKey(last));
            }
          }
        }
        Some(last)
  }

  /** `.filter((tag) => tag.startsWith(`${v}-beta.`)).map(…)`: the beta numbers of the tags starting with `v-beta.`. */
  function BaseBetas(betas: seq<string>, v: string): (r: seq<nat>)
    requires AllBeta(betas)
    ensures forall t :: t in betas && StartsWith(t, v + BetaInfix) ==> BetaNum(t) in r
    ensures forall n :: n in r ==> exists t :: t in betas && StartsWith(t, v + BetaInfix) && BetaNum(t) == n
  {
    if betas == [] then []
    else
      var rest := BaseBetas(betas[1..], v);
      assert forall t :: t in betas[1..] ==> t in betas;
      if StartsWith(betas[0], v + BetaInfix) then [BetaNum(betas[0])] + rest else rest
  }

  /** `Math.max(...xs)` on a non-empty list. */
  function MaxOf(xs: seq<nat>): (r: nat)
    requires xs != []
    ensures r in xs && forall x :: x in xs ==> x <= r
  {
    if |xs| == 1 then xs[0]
    else
      var m := MaxOf(xs[1..]);
      assert forall x :: x in xs ==> x == xs[0] || x in xs[1..];
      if xs[0] >= m then xs[0] else m
  }

  /** `baseBetas.length ? Math.max(...baseBetas) + 1 : 0`: one past every number, or 0. */
  function NextBetaNumber(nums: seq<nat>): (r: nat)
    ensures forall n :: n in nums ==> n < r
    ensures r == 0 || r - 1 in nums
  {
    if |nums| > 0 then MaxOf(nums) + 1 else 0
  }

  /** Whether the newest beta leads to a version above `stable`, so its series continues. */
  predicate Continues(latest: Option<string>, stable: string)
    requires latest.Some? ==> IsBetaTag(latest.value)
    requires IsStrictVersion(stable)
  {
    latest.Some? && IsSemverGreater(BetaBase(latest.value), stable)
  }

  /**
   * The choice in `getNextBetaVersion` once `stable` (the next stable
   * version) is known: a beta tag whose base is `stable` or above it.
   */
  function NextBeta(tags: seq<string>, stable: string): (r: string)
    requires IsStrictVersion(stable)
    ensures IsBetaTag(r)
    ensures BetaBase(r) == stable || IsSemverGreater(BetaBase(r), stable)
    ensures var latest := LatestBeta(BetaTags(tags));
      Continues(latest, stable) ==> BetaBase(r) == BetaBase(latest.value) && BetaNum(r) == BetaNum(latest.value) + 1
    ensures var betas := BetaTags(tags);
      !Continues(LatestBeta(betas), stable) ==> BetaBase(r) == stable && BetaNum(r) == NextBetaNumber(BaseBetas(betas, stable))
  {
    var betas := BetaTags(tags);
    var latest := LatestBeta(betas);
    if Continues(latest, stable) then
      var base := BetaBase(latest.value);
      FormatBetaParse(base, BetaNum(latest.value) + 1);
      FormatBeta(base, BetaNum(latest.value) + 1)
    else
      var n := NextBetaNumber(BaseBetas(betas, stable));
      FormatBetaParse(stable, n);
      FormatBeta(stable, n)
  }

  /** `getNextBetaVersion(from, to)` on the `git tag` listing, the release tag listing and the log. */
  function GetNextBetaVersion(tagOutput: string, releaseTagOutput: string, rawLog: string): (r: string)
    ensures IsBetaTag(r)
    ensures var stable := GetNextStableVersion(releaseTagOutput, rawLog);
      BetaBase(r) == stable || IsSemverGreater(BetaBase(r), stable)
    ensures r !in TagList(tagOutput)
  {
    var stable := GetNextStableVersion(releaseTagOutput, rawLog);
    NextBetaIsNew(TagList(tagOutput), stable);
    NextBeta(TagList(tagOutput), stable)
  }

  /** A tag whose key is at most `l`'s and whose base is `l`'s has a number at most `l`'s. */
  lemma SameBaseAtMost(t: string, l: string)
    requires IsBetaTag(t) && IsBetaTag(l) && BetaBase(t) == BetaBase(l)
    requires !LexGreater(BetaKey(t), BetaKey(l))
    ensures BetaNum(t) <= BetaNum(l)
  {
    KeyOrder(ParseVersion(BetaBase(t)), BetaNum(t), ParseVersion(BetaBase(l)), BetaNum(l));
  }

  /** A tag whose key is at most `l`'s has a base at most `l`'s. */
  lemma BaseAtMost(t: string, l: string)
    requires IsBetaTag(t) && IsBetaTag(l)
    requires !LexGreater(BetaKey(t), BetaKey(l))
    ensures !IsSemverGreater(BetaBase(t), BetaBase(l))
  {
    KeyOrder(ParseVersion(BetaBase(t)), BetaNum(t), ParseVersion(BetaBase(l)), BetaNum(l));
  }

  /** Numbering when the newest beta's series continues. */
  lemma NumberingContinued(betas: seq<string>, l: string, r: string)
    requires AllBeta(betas) && l in betas && IsBetaTag(l)
    requires forall t :: t in betas ==> !LexGreater(BetaKey(t), BetaKey(l))
    requires IsBetaTag(r) && BetaBase(r) == BetaBase(l) && BetaNum(r) == BetaNum(l) + 1
    ensures forall t :: t in betas && BetaBase(t) == BetaBase(r) ==> BetaNum(t) < BetaNum(r)
  {
    forall t | t in betas && BetaBase(t) == BetaBase(r) ensures BetaNum(t) < BetaNum(r) {
      SameBaseAtMost(t, l);
    }
  }

  /** Numbering when the series of `stable` starts or continues. */
  lemma NumberingStable(betas: seq<string>, stable: string, r: string)
    requires AllBeta(betas) && IsStrictVersion(stable)
    requires IsBetaTag(r) && BetaBase(r) == stable && BetaNum(r) == NextBetaNumber(BaseBetas(betas, stable))
    ensures forall t :: t in betas && BetaBase(t) == BetaBase(r) ==> BetaNum(t) < BetaNum(r)
    ensures BetaNum(r) == 0 || exists t :: t in betas && BetaBase(t) == BetaBase(r) && BetaNum(t) + 1 == BetaNum(r)
  {
    var nums := BaseBetas(betas, stable);
    forall t | t in betas && BetaBase(t) == stable ensures BetaNum(t) < BetaNum(r) {
      StartsWithBase(t, stable);
    }
    if BetaNum(r) != 0 {
      var t :| t in betas && StartsWith(t, stable + BetaInfix) && BetaNum(t) == BetaNum(r) - 1;
      StartsWithBase(t, stable);
    }
  }

  /**
   * The beta number is one past every beta of the same base, and it is
   * 0 or follows an existing beta of that base directly.
   */
  lemma NextBetaNumbering(tags: seq<string>, stable: string)
    requires IsStrictVersion(stable)
    ensures var r := NextBeta(tags, stable);
      forall t :: t in tags && IsBetaTag(t) && BetaBase(t) == BetaBase(r) ==> BetaNum(t) < BetaNum(r)
    ensures var r := NextBeta(tags, stable);
      BetaNum(r) == 0 || exists t :: t in tags && IsBetaTag(t) && BetaBase(t) == BetaBase(r) && BetaNum(t) + 1 == BetaNum(r)
  {
    var betas := BetaTags(tags);
    var latest := LatestBeta(betas);
    var r := NextBeta(tags, stable);
    if Continues(latest, stable) {
      NumberingContinued(betas, latest.value, r);
      assert latest.value in tags;
    } else {
      NumberingStable(betas, stable, r);
    }
  }

  /** The tag is new: `getNextBetaVersion` never proposes an existing tag. */
  lemma NextBetaIsNew(tags: seq<string>, stable: string)
    requires IsStrictVersion(stable)
    ensures NextBeta(tags, stable) !in tags
  {
    NextBetaNumbering(tags, stable);
  }

  /** Bases when the series continues: above `stable`, and no beta base is above it. */
  lemma BaseContinued(betas: seq<string>, l: string, stable: string)
    requires AllBeta(betas) && IsBetaTag(l) && IsStrictVersion(stable)
    requires forall t :: t in betas ==> !LexGreater(BetaKey(t), BetaKey(l))
    ensures forall t :: t in betas ==> !IsSemverGreater(BetaBase(t), BetaBase(l))
  {
    forall t | t in betas ensures !IsSemverGreater(BetaBase(t), BetaBase(l)) {
      BaseAtMost(t, l);
    }
  }

  /** When the series does not continue, no beta base is above `stable`. */
  lemma BaseNotContinued(betas: seq<string>, stable: string)
    requires AllBeta(betas) && IsStrictVersion(stable) && !Continues(LatestBeta(betas), stable)
    ensures forall t :: t in betas ==> !IsSemverGreater(BetaBase(t), stable)
  {
    forall t | t in betas ensures !IsSemverGreater(BetaBase(t), stable) {
      var l := LatestBeta(betas).value;
      BaseAtMost(t, l);
      if IsSemverGreater(BetaBase(t), stable) {
        AtLeastThenGreater(ParseVersion(BetaBase(l)), ParseVersion(BetaBase(t)), ParseVersion(stable));
      }
    }
  }

  /**
   * The base: the next stable version, unless some beta leads above it, in
   * which case the highest beta base, which is above it.
   */
  lemma NextBetaBase(tags: seq<string>, stable: string)
    requires IsStrictVersion(stable)
    ensures (forall t :: t in tags && IsBetaTag(t) ==> !IsSemverGreater(BetaBase(t), stable)) ==>
      BetaBase(NextBeta(tags, stable)) == stable
    ensures (exists t :: t in tags && IsBetaTag(t) && IsSemverGreater(BetaBase(t), stable)) ==>
      IsSemverGreater(BetaBase(NextBeta(tags, stable)), stable) &&
      forall t :: t in tags && IsBetaTag(t) ==> !IsSemverGreater(BetaBase(t), BetaBase(NextBeta(tags, stable)))
  {
    var betas := BetaTags(tags);
    var latest := LatestBeta(betas);
    if Continues(latest, stable) {
      BaseContinued(betas, latest.value, stable);
      assert latest.value in tags;
    } else {
      BaseNotContinued(betas, stable);
    }
  }

  /** Written without leading zeros, as `bumpVersion` writes versions. */
  predicate IsPlainVersion(v: string)
    requires IsStrictVersion(v)
  {
    FormatVersion(ParseVersion(v)) == v
  }

  /** A key at most `l`'s is below the key of `l`'s successor. */
  lemma BelowSuccessor(t: string, l: string, r: string)
    requires IsBetaTag(t) && IsBetaTag(l) && IsBetaTag(r)
    requires !LexGreater(BetaKey(t), BetaKey(l))
    requires BetaBase(r) == BetaBase(l) && BetaNum(r) == BetaNum(l) + 1
    ensures LexGreater(BetaKey(r), BetaKey(t))
  {
    KeyOrder(ParseVersion(BetaBase(r)), BetaNum(r), ParseVersion(BetaBase(l)), BetaNum(l));
    if BetaKey(t) != BetaKey(l) {
      LexConnected(BetaKey(t), BetaKey(l));
      LexTransitive(BetaKey(r), BetaKey(l), BetaKey(t));
    }
  }

  /** A beta of a base below `stable`, or of `stable` with a smaller number, is below the new tag. */
  lemma BelowNew(t: string, stable: string, r: string)
    requires IsBetaTag(t) && IsBetaTag(r) && IsStrictVersion(stable) && IsPlainVersion(stable)
    requires IsPlainVersion(BetaBase(t)) && !IsSemverGreater(BetaBase(t), stable)
    requires BetaBase(r) == stable && (BetaBase(t) == stable ==> BetaNum(t) < BetaNum(r))
    ensures LexGreater(BetaKey(r), BetaKey(t))
  {
    var p, q := ParseVersion(stable), ParseVersion(BetaBase(t));
    KeyOrder(p, BetaNum(r), q, BetaNum(t));
    if q != p {
      LexConnected(p, q);
    }
  }

  /**
   * When no tag writes a version with leading zeros, the new tag sorts
   * after every existing beta tag.
   */
  lemma NextBetaAboveAll(tags: seq<string>, stable: string)
    requires IsStrictVersion(stable) && IsPlainVersion(stable)
    requires forall t :: t in tags && IsBetaTag(t) ==> IsPlainVersion(BetaBase(t))
    ensures forall t :: t in tags && IsBetaTag(t) ==> LexGreater(BetaKey(NextBeta(tags, stable)), BetaKey(t))
  {
    var betas := BetaTags(tags);
    var latest := LatestBeta(betas);
    var r := NextBeta(tags, stable);
    if Continues(latest, stable) {
      forall t | t in tags && IsBetaTag(t) ensures LexGreater(BetaKey(r), BetaKey(t)) {
        BelowSuccessor(t, latest.value, r);
      }
    } else {
      BaseNotContinued(betas, stable);
      NumberingStable(betas, stable, r);
      forall t | t in tags && IsBetaTag(t) ensures LexGreater(BetaKey(r), BetaKey(t)) {
        BelowNew(t, stable, r);
      }
    }
  }
}
