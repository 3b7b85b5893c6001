/** Validation of the configuration before a run
    (Avalanche/ExecutionParameters.cs and core/src/Avalanche/ExecutionParameters.cs):
    the cold-storage settings are checked in a fixed order, then the
    catalog and ledger paths, and the two lists are joined without
    repeats. The region list and `File.Exists` are parameters. */
module Config {
  import opened Models
  import opened Text

  /** A storage region, known by its system name ("us-west-2"). */
  datatype RegionEndpoint = RegionEndpoint(systemName: string)

  /** The cold-storage settings; unset values are `None`. */
  datatype GlacierParameters = GlacierParameters(
    accountId: Option<string>,
    accessKeyId: Option<string>,
    secretAccessKey: Option<string>,
    snsTopicId: Option<string>,
    region: Option<string>,
    vaultName: Option<string>)

  /** The catalog to read and the ledger to write. */
  datatype AvalancheParameters = AvalancheParameters(catalogFilePath: Option<string>, avalancheFilePath: Option<string>)

  datatype ExecutionParameters = ExecutionParameters(glacier: GlacierParameters, avalanche: AvalancheParameters)

  const AccessKeyRequired: string := "Glacier Access Key ID is required."
  const SecretRequired: string := "Glacier Secret Access Key is required."
  const RegionRequired: string := "Glacier Region is required."
  const RegionUnparsed: string := "Could not parse given Glacier Region "
  const VaultRequired: string := "Glacier Vault Name is required."
  const CatalogRequired: string := "Lightroom Catalog file path is required"
  const CatalogMissing: string := "Could not find a Lightroom Catalog file at path "
  const LedgerRequired: string := "Avalanch File path is required"

  /** The messages have pairwise different lengths, so no two are equal. */
  lemma MessageLengths()
    ensures |AccessKeyRequired| == 34 && |SecretRequired| == 38 && |RegionRequired| == 27 && |RegionUnparsed| == 37
    ensures |VaultRequired| == 31 && |CatalogRequired| == 39 && |CatalogMissing| == 48 && |LedgerRequired| == 30
  {
  }

  /** Whether a region's system name matches the configured text,
      ignoring case; an unset region matches nothing. */
  predicate NamesRegion(r: RegionEndpoint, region: Option<string>) {
    region.Some? && EqualsIgnoreCase(r.systemName, region.value)
  }

  /** `GetRegion`: the first region, in list order, whose system name
      matches; none when no region does. */
  function FindRegion(region: Option<string>, regions: seq<RegionEndpoint>): (r: Option<RegionEndpoint>)
    ensures r.None? <==> forall i :: 0 <= i < |regions| ==> !NamesRegion(regions[i], region)
    ensures r.Some? ==> exists i :: 0 <= i < |regions| && regions[i] == r.value && NamesRegion(r.value, region)
                          && forall j :: 0 <= j < i ==> !NamesRegion(regions[j], region)
  {
    if regions == [] then None
    else if NamesRegion(regions[0], region) then Some(regions[0])
    else
      var r := FindRegion(region, regions[1..]);
      assert forall i :: 1 <= i < |regions| ==> regions[i] == regions[1..][i - 1];
      r
  }

  /** The search loop of `GetRegion`. */
  method GetRegion(region: Option<string>, regions: seq<RegionEndpoint>) returns (r: Option<RegionEndpoint>)
    ensures r == FindRegion(region, regions)
  {
    var i := 0;
    while i < |regions|
      invariant 0 <= i <= |regions|
      invariant FindRegion(region, regions) == FindRegion(region, regions[i..])
    {
      if NamesRegion(regions[i], region) {
        return Some(regions[i]);
      }
      assert regions[i..][1..] == regions[i + 1..];
      i := i + 1;
    }
    return None;
  }

  /** The text a missing region concatenates to: nothing. */
  function RegionText(r: Option<RegionEndpoint>): string {
    if r.Some? then r.value.systemName else ""
  }

  /** The cold-storage errors, in checking order: access key, secret,
      region (required, or not parseable), vault name. */
  function GlacierErrors(p: GlacierParameters, regions: seq<RegionEndpoint>): (errors: seq<string>)
    ensures AccessKeyRequired in errors <==> IsNullOrWhiteSpace(p.accessKeyId)
    ensures SecretRequired in errors <==> IsNullOrWhiteSpace(p.secretAccessKey)
    ensures RegionRequired in errors <==> IsNullOrWhiteSpace(p.region)
    ensures RegionUnparsed in errors <==> !IsNullOrWhiteSpace(p.region) && FindRegion(p.region, regions).None?
    ensures VaultRequired in errors <==> IsNullOrWhiteSpace(p.vaultName)
    ensures forall e :: e in errors ==> e in [AccessKeyRequired, SecretRequired, RegionRequired, RegionUnparsed, VaultRequired]
  {
    assert RegionUnparsed + RegionText(None) == RegionUnparsed;
    MessageLengths();
    (if IsNullOrWhiteSpace(p.accessKeyId) then [AccessKeyRequired] else [])
    + (if IsNullOrWhiteSpace(p.secretAccessKey) then [SecretRequired] else [])
    + (if IsNullOrWhiteSpace(p.region) then [RegionRequired]
       else if FindRegion(p.region, regions).None? then [RegionUnparsed + RegionText(FindRegion(p.region, regions))]
       else [])
    + (if IsNullOrWhiteSpace(p.vaultName) then [VaultRequired] else [])
  }

  /** The position of a cold-storage message in the checking order. */
  function GlacierRank(e: string): nat {
    if e == AccessKeyRequired then 0
    else if e == SecretRequired then 1
    else if e == RegionRequired then 2
    else if e == RegionUnparsed then 3
    else 4
  }

  lemma MessageRanks()
    ensures GlacierRank(AccessKeyRequired) == 0 && GlacierRank(SecretRequired) == 1 && GlacierRank(RegionRequired) == 2
    ensures GlacierRank(RegionUnparsed) == 3 && GlacierRank(VaultRequired) == 4
  {
    MessageLengths();
  }

  /** Messages in strictly increasing checking order. */
  predicate InGlacierOrder(errors: seq<string>) {
    forall i, j :: 0 <= i < j < |errors| ==> GlacierRank(errors[i]) < GlacierRank(errors[j])
  }

  /** Every message's rank lies in [lo, hi). */
  predicate RanksWithin(errors: seq<string>, lo: nat, hi: nat) {
    forall i :: 0 <= i < |errors| ==> lo <= GlacierRank(errors[i]) < hi
  }

  lemma InGlacierOrderAppend(a: seq<string>, b: seq<string>, lo: nat, mid: nat, hi: nat)
    requires InGlacierOrder(a) && InGlacierOrder(b)
    requires lo <= mid <= hi && RanksWithin(a, lo, mid) && RanksWithin(b, mid, hi)
    ensures InGlacierOrder(a + b) && RanksWithin(a + b, lo, hi)
  {
    forall i, j | 0 <= i < j < |a + b| ensures GlacierRank((a + b)[i]) < GlacierRank((a + b)[j]) {
      if j < |a| {
        assert (a + b)[i] == a[i] && (a + b)[j] == a[j];
      } else if i < |a| {
        assert (a + b)[i] == a[i] && (a + b)[j] == b[j - |a|];
      } else {
        assert (a + b)[i] == b[i - |a|] && (a + b)[j] == b[j - |a|];
      }
    }
    forall i | 0 <= i < |a + b| ensures lo <= GlacierRank((a + b)[i]) < hi {
      if i < |a| {
        assert (a + b)[i] == a[i];
      } else {
        assert (a + b)[i] == b[i - |a|];
      }
    }
  }

  /** The cold-storage errors come in checking order, and a bad region
      gets exactly one of its two messages. */
  lemma GlacierErrorsOrdered(p: GlacierParameters, regions: seq<RegionEndpoint>)
    ensures InGlacierOrder(GlacierErrors(p, regions))
    ensures !(RegionRequired in GlacierErrors(p, regions) && RegionUnparsed in GlacierErrors(p, regions))
    ensures |GlacierErrors(p, regions)| <= 4
  {
    assert RegionUnparsed + RegionText(None) == RegionUnparsed;
    MessageRanks();
    var a := if IsNullOrWhiteSpace(p.accessKeyId) then [AccessKeyRequired] else [];
    var s := if IsNullOrWhiteSpace(p.secretAccessKey) then [SecretRequired] else [];
    var r := if IsNullOrWhiteSpace(p.region) then [RegionRequired]
             else if FindRegion(p.region, regions).None? then [RegionUnparsed]
             else [];
    var v := if IsNullOrWhiteSpace(p.vaultName) then [VaultRequired] else [];
    assert RanksWithin(a, 0, 1) && RanksWithin(s, 1, 2) && RanksWithin(r, 2, 4) && RanksWithin(v, 4, 5);
    InGlacierOrderAppend(a, s, 0, 1, 2);
    InGlacierOrderAppend(a + s, r, 0, 2, 4);
    InGlacierOrderAppend(a + s + r, v, 0, 4, 5);
    assert GlacierErrors(p, regions) == a + s + r + v;
  }

  /** The catalog and ledger path errors: the catalog path is required,
      or else must name an existing file; the ledger path is required. */
  function AvalancheErrors(p: AvalancheParameters, fileExists: string -> bool): (errors: seq<string>)
    ensures CatalogRequired in errors <==> IsNullOrWhiteSpace(p.catalogFilePath)
    ensures !IsNullOrWhiteSpace(p.catalogFilePath) ==>
              (CatalogMissing + p.catalogFilePath.value in errors <==> !fileExists(p.catalogFilePath.value))
    ensures LedgerRequired in errors <==> IsNullOrWhiteSpace(p.avalancheFilePath)
    ensures |errors| <= 2
    ensures errors == [] <==> !IsNullOrWhiteSpace(p.catalogFilePath) && fileExists(p.catalogFilePath.value)
                              && !IsNullOrWhiteSpace(p.avalancheFilePath)
  {
    MessageLengths();
    (if IsNullOrWhiteSpace(p.catalogFilePath) then [CatalogRequired]
     else if !fileExists(p.catalogFilePath.value) then [CatalogMissing + p.catalogFilePath.value]
     else [])
    + (if IsNullOrWhiteSpace(p.avalancheFilePath) then [LedgerRequired] else [])
  }

  predicate Distinct(s: seq<string>) {
    forall i, j :: 0 <= i < j < |s| ==> s[i] != s[j]
  }

  /** LINQ's `Distinct`: every element once, at its first occurrence. */
  function Dedup(s: seq<string>): (r: seq<string>)
    ensures Distinct(r) && |r| <= |s|
    ensures forall e :: e in r <==> e in s
  {
    if s == [] then []
    else
      var init := Dedup(s[..|s| - 1]);
      var last := s[|s| - 1];
      assert forall e :: e in s <==> e in s[..|s| - 1] || e == last by {
        assert s == s[..|s| - 1] + [last];
      }
      if last in init then init else init + [last]
  }

  /** Deduplication keeps first occurrences in order: deduplicating a
      prefix gives a prefix of the result, and what follows it is new. */
  lemma {:induction false} DedupPrefix(s: seq<string>, k: nat)
    requires k <= |s|
    ensures |Dedup(s[..k])| <= |Dedup(s)| && Dedup(s)[..|Dedup(s[..k])|] == Dedup(s[..k])
    ensures forall i :: |Dedup(s[..k])| <= i < |Dedup(s)| ==> Dedup(s)[i] !in s[..k]
    decreases |s|
  {
    if k < |s| {
      var init := s[..|s| - 1];
      assert init[..k] == s[..k];
      DedupPrefix(init, k);
      var d := Dedup(init);
      var m := |Dedup(s[..k])|;
      assert Dedup(s) == d || Dedup(s) == d + [s[|s| - 1]];
      assert Dedup(s)[..|d|] == d;
      assert Dedup(s)[..m] == d[..m];
      forall i | m <= i < |Dedup(s)| ensures Dedup(s)[i] !in s[..k] {
        if i < |d| {
          assert Dedup(s)[i] == d[i];
        } else {
          assert Dedup(s)[i] !in init;
          assert s[..k] == init[..k];
          assert forall e :: e in init[..k] ==> e in init;
        }
      }
    } else {
      assert s[..k] == s;
    }
  }

  /** A list without repeats is its own deduplication. */
  lemma {:induction false} DedupDistinct(s: seq<string>)
    requires Distinct(s)
    ensures Dedup(s) == s
  {
    if s != [] {
      var init := s[..|s| - 1];
      assert Distinct(init);
      DedupDistinct(init);
      assert s[|s| - 1] !in init;
      assert init + [s[|s| - 1]] == s;
    }
  }

  /** `Union`: the first list, then the second, each message once at its
      first occurrence; lists without repeats between or within them are
      simply concatenated. */
  function Union(a: seq<string>, b: seq<string>): (u: seq<string>)
    ensures Distinct(u) && |u| <= |a| + |b|
    ensures forall e :: e in u <==> e in a || e in b
    ensures |Dedup(a)| <= |u| && u[..|Dedup(a)|] == Dedup(a)
    ensures forall i, j :: 0 <= i < j < |u| && u[j] in a ==> u[i] in a
    ensures Distinct(a + b) ==> u == a + b
  {
    var u := Dedup(a + b);
    assert (a + b)[..|a|] == a;
    DedupPrefix(a + b, |a|);
    forall i, j | 0 <= i < j < |u| && u[j] in a ensures u[i] in a {
      assert u[i] == Dedup(a)[i];
    }
    if Distinct(a + b) then DedupDistinct(a + b); u else u
  }

  /** Two lists without repeats, sharing no element, join without repeats. */
  lemma DistinctAppend(x: seq<string>, y: seq<string>)
    requires Distinct(x) && Distinct(y) && forall e :: e in x ==> e !in y
    ensures Distinct(x + y)
  {
    forall i, j | 0 <= i < j < |x + y| ensures (x + y)[i] != (x + y)[j] {
      if j < |x| {
        assert (x + y)[i] == x[i] && (x + y)[j] == x[j];
      } else if i < |x| {
        assert (x + y)[i] == x[i] && (x + y)[j] == y[j - |x|];
        assert x[i] in x && y[j - |x|] in y;
      } else {
        assert (x + y)[i] == y[i - |x|] && (x + y)[j] == y[j - |x|];
      }
    }
  }

  lemma GlacierMessageLengths(p: GlacierParameters, regions: seq<RegionEndpoint>)
    ensures Distinct(GlacierErrors(p, regions))
    ensures forall e :: e in GlacierErrors(p, regions) ==> |e| <= 38 && |e| != 30
  {
    GlacierErrorsOrdered(p, regions);
    MessageLengths();
  }

  lemma AvalancheMessageLengths(p: AvalancheParameters, fileExists: string -> bool)
    ensures Distinct(AvalancheErrors(p, fileExists))
    ensures forall e :: e in AvalancheErrors(p, fileExists) ==> |e| == 30 || |e| > 38
  {
    MessageLengths();
  }

  /** The cold-storage messages differ from one another and from the
      catalog and ledger messages. */
  lemma MessagesDistinct(p: ExecutionParameters, regions: seq<RegionEndpoint>, fileExists: string -> bool)
    ensures Distinct(GlacierErrors(p.glacier, regions) + AvalancheErrors(p.avalanche, fileExists))
  {
    GlacierMessageLengths(p.glacier, regions);
    AvalancheMessageLengths(p.avalanche, fileExists);
    DistinctAppend(GlacierErrors(p.glacier, regions), AvalancheErrors(p.avalanche, fileExists));
  }

  /** `ExecutionParameters.GetValidationErrors`: the cold-storage messages
      in checking order, then the catalog and ledger messages. */
  function ValidationErrors(p: ExecutionParameters, regions: seq<RegionEndpoint>, fileExists: string -> bool): (errors: seq<string>)
    ensures errors == GlacierErrors(p.glacier, regions) + AvalancheErrors(p.avalanche, fileExists)
    ensures Distinct(errors)
    ensures errors == [] <==>
              && !IsNullOrWhiteSpace(p.glacier.accessKeyId) && !IsNullOrWhiteSpace(p.glacier.secretAccessKey)
              && !IsNullOrWhiteSpace(p.glacier.region) && FindRegion(p.glacier.region, regions).Some?
              && !IsNullOrWhiteSpace(p.glacier.vaultName)
              && !IsNullOrWhiteSpace(p.avalanche.catalogFilePath) && fileExists(p.avalanche.catalogFilePath.value)
              && !IsNullOrWhiteSpace(p.avalanche.avalancheFilePath)
  {
    var g := GlacierErrors(p.glacier, regions);
    var a := AvalancheErrors(p.avalanche, fileExists);
    assert g == [] <==> !(exists e :: e in g) by {
      if g != [] { assert g[0] in g; }
    }
    MessagesDistinct(p, regions, fileExists);
    Union(g, a)
  }

  /** There are never more than six messages. */
  lemma AtMostSixErrors(p: ExecutionParameters, regions: seq<RegionEndpoint>, fileExists: string -> bool)
    ensures |ValidationErrors(p, regions, fileExists)| <= 6
  {
    GlacierErrorsOrdered(p.glacier, regions);
  }

  /** Unset cold-storage settings get their four "required" messages, in
      the order they are checked. */
  lemma EmptyGlacierParameters(regions: seq<RegionEndpoint>)
    ensures GlacierErrors(GlacierParameters(None, None, None, None, None, None), regions)
            == [AccessKeyRequired, SecretRequired, RegionRequired, VaultRequired]
  {
    MessageLengths();
  }

  /** An empty configuration gets all six "required" messages, the
      cold-storage ones first. */
  lemma EmptyConfigurationGetsSixErrors(regions: seq<RegionEndpoint>, fileExists: string -> bool)
    ensures ValidationErrors(ExecutionParameters(GlacierParameters(None, None, None, None, None, None), AvalancheParameters(None, None)),
                             regions, fileExists)
            == [AccessKeyRequired, SecretRequired, RegionRequired, VaultRequired, CatalogRequired, LedgerRequired]
  {
    var p := ExecutionParameters(GlacierParameters(None, None, None, None, None, None), AvalancheParameters(None, None));
    var g := GlacierErrors(p.glacier, regions);
    var a := AvalancheErrors(p.avalanche, fileExists);
    EmptyGlacierParameters(regions);
    assert a == [CatalogRequired, LedgerRequired];
    assert ValidationErrors(p, regions, fileExists) == g + a;
  }
}
