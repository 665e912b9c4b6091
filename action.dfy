/**
 * The version matrix of src/action.js. The manifest's `min-version`/`max-version`, the branch
 * existence probe, the fetched `lib/versioncheck.php` of each branch and the fetched PHP releases
 * page are inputs; the named outputs are returned instead of written. PHP versions are counted in
 * tenths: 7.3 is 73.
 */
module Action {
  import opened Wrappers
  import opened Decimal
  import opened Lists
  import opened Branches
  import opened Patterns

  const MinPattern: string := "PHP_VERSION_ID < "
  const MaxPattern: string := "PHP_VERSION_ID >= "

  // ---------------------------------------------------------------------------------------
  // Decoding `PHP_VERSION_ID`

  /**
   * `parseVersionId(raw)`: the first two digits read as whole tenths plus the third digit as
   * tenths; later digits are ignored, and fewer than three leading digits is an error.
   */
  function ParseVersionId(raw: string): (r: Result<nat>)
    ensures r.Ok? <==> |raw| >= 3 && IsDigit(raw[0]) && IsDigit(raw[1]) && IsDigit(raw[2])
    ensures r.Ok? ==> r.value == 10 * DigitValue(raw[0]) + DigitValue(raw[1]) + DigitValue(raw[2])
    ensures r.Err? ==> r.error == MalformedVersionId(raw)
  {
    if |raw| >= 3 && IsDigit(raw[0]) && IsDigit(raw[1]) && IsDigit(raw[2]) then
      var whole, tenth := raw[..2], raw[2..3];
      assert DigitsValue(tenth) == DigitValue(raw[2]) by {
        assert tenth[..0] == [];
      }
      assert DigitsValue(whole[..1]) == DigitValue(raw[0]) by {
        assert whole[..1] == [raw[0]] && [raw[0]][..0] == [];
      }
      assert DigitsValue(whole) == 10 * DigitsValue(whole[..1]) + DigitValue(raw[1]);
      Ok(DigitsValue(whole) + DigitsValue(tenth))
    else Err(MalformedVersionId(raw))
  }

  /** Digits after the third change nothing. */
  lemma ParseVersionIdPrefix(raw: string, more: string)
    requires |raw| >= 3
    ensures ParseVersionId(raw + more).Ok? == ParseVersionId(raw).Ok?
    ensures ParseVersionId(raw).Ok? ==> ParseVersionId(raw + more) == ParseVersionId(raw)
  {
    var t := raw + more;
    assert t[0] == raw[0] && t[1] == raw[1] && t[2] == raw[2];
    assert t[..2] == raw[..2] && t[2..3] == raw[2..3];
  }

  /** PHP's `PHP_VERSION_ID` of major.minor.patch. */
  function PhpVersionId(major: nat, minor: nat, patch: nat): nat {
    10000 * major + 100 * minor + patch
  }

  /**
   * The decimal text of `PHP_VERSION_ID` for a one-digit major and minor: the major, a zero, the
   * minor and the patch number in two digits.
   */
  function PhpVersionIdText(major: nat, minor: nat, patch: nat): string
    requires major <= 9 && minor <= 9 && patch <= 99
  {
    [DigitChar(major), DigitChar(0), DigitChar(minor), DigitChar(patch / 10), DigitChar(patch % 10)]
  }

  /** That text is how the version id is written in decimal. */
  lemma PhpVersionIdTextIsDecimal(major: nat, minor: nat, patch: nat)
    requires 1 <= major <= 9 && minor <= 9 && patch <= 99
    ensures NatToString(PhpVersionId(major, minor, patch)) == PhpVersionIdText(major, minor, patch)
  {
    var n := PhpVersionId(major, minor, patch);
    assert n / 10 / 10 == 100 * major + minor;
    assert n / 10 / 10 / 10 == 10 * major;
    assert (n / 10) % 10 == patch / 10 && n % 10 == patch % 10;
    assert (n / 10 / 10) % 10 == minor;
    assert (10 * major) / 10 == major && (10 * major) % 10 == 0;
    assert NatToString(major) == [DigitChar(major)];
    var s3 := NatToString(10 * major);
    assert s3 == [DigitChar(major)] + [DigitChar(0)];
    var s2 := NatToString(100 * major + minor);
    assert s2 == s3 + [DigitChar(minor)];
    var s1 := NatToString(n / 10);
    assert s1 == s2 + [DigitChar(patch / 10)];
    assert NatToString(n) == s1 + [DigitChar(patch % 10)];
  }

  /** The version id of major.minor.patch decodes to major.minor in tenths. */
  lemma ParseVersionIdText(major: nat, minor: nat, patch: nat)
    requires major <= 9 && minor <= 9 && patch <= 99
    ensures ParseVersionId(PhpVersionIdText(major, minor, patch)) == Ok(10 * major + minor)
  {
  }

  /** For one-digit majors and minors, decoding the version id gives back major.minor in tenths. */
  lemma ParseVersionIdOfPhpVersion(major: nat, minor: nat, patch: nat)
    requires 1 <= major <= 9 && minor <= 9 && patch <= 99
    ensures ParseVersionId(NatToString(PhpVersionId(major, minor, patch))) == Ok(10 * major + minor)
  {
    PhpVersionIdTextIsDecimal(major, minor, patch);
    ParseVersionIdText(major, minor, patch);
  }

  // ---------------------------------------------------------------------------------------
  // `getSupportedVersions(branch)` once the branch's `lib/versioncheck.php` has been fetched

  /** The PHP window of a branch, in tenths, both ends as decoded. */
  datatype Window = Window(min: nat, max: nat)

  /**
   * Reads the window from the check code: the minimum from the first `PHP_VERSION_ID < <digits>`,
   * the maximum from the first `PHP_VERSION_ID >= <digits>`. A missing comparison or a malformed
   * version id is an error, never a default.
   */
  function GetSupportedVersions(code: string): (r: Result<Window>)
    ensures FirstMatch(code, MinPattern).None? ==> r == Err(PatternNotFound(MinPattern))
    ensures FirstMatch(code, MinPattern).Some? && FirstMatch(code, MaxPattern).None?
            ==> r.Err?
    ensures r.Ok? <==>
              && FirstMatch(code, MinPattern).Some? && ParseVersionId(FirstMatch(code, MinPattern).value).Ok?
              && FirstMatch(code, MaxPattern).Some? && ParseVersionId(FirstMatch(code, MaxPattern).value).Ok?
    ensures r.Ok? ==> (r.value.min == ParseVersionId(FirstMatch(code, MinPattern).value).value
                       && r.value.max == ParseVersionId(FirstMatch(code, MaxPattern).value).value)
  {
    match FirstMatch(code, MinPattern)
    case None => Err(PatternNotFound(MinPattern))
    case Some(rawMin) =>
      match ParseVersionId(rawMin)
      case Err(e) => Err(e)
      case Ok(min) =>
        match FirstMatch(code, MaxPattern)
        case None => Err(PatternNotFound(MaxPattern))
        case Some(rawMax) =>
          match ParseVersionId(rawMax)
          case Err(e) => Err(e)
          case Ok(max) => Ok(Window(min, max))
  }

  /**
   * The two comparisons of a branch's `lib/versioncheck.php`, lower bound first, each id followed
   * by a character that is not a digit.
   */
  function VersionCheckCode(minId: string, maxId: string): string {
    MinPattern + minId + ";" + MaxPattern + maxId + ";"
  }

  lemma LeadingMatch(key: string, id: string, rest: string)
    requires id != [] && AllDigits(id)
    requires rest == [] || !IsDigit(rest[0])
    ensures FirstMatch(key + id + rest, key) == Some(id)
  {
    var t := key + id + rest;
    assert t[|key|..] == id + rest;
    DigitRunOf(id, rest);
  }

  lemma NoMaxPatternIn(pre: string, t: string)
    requires forall j :: 0 <= j < |pre| ==> pre[j] != '>'
    ensures forall p :: 0 <= p < |pre| ==> !(MaxPattern <= (pre + MaxPattern + t)[p..])
  {
    var u := pre + MaxPattern + t;
    forall p | 0 <= p < |pre| ensures !(MaxPattern <= u[p..]) {
      assert u[p + 15] != '>';
    }
  }

  /** The code up to the upper check holds no `>`. */
  lemma LowerCheckHasNoGreater(minId: string)
    requires AllDigits(minId)
    ensures forall j :: 0 <= j < |MinPattern + minId + ";"| ==> (MinPattern + minId + ";")[j] != '>'
  {
    var pre := MinPattern + minId + ";";
    forall j | 0 <= j < |pre| ensures pre[j] != '>' {
      if j < |MinPattern| {
        assert pre[j] == MinPattern[j];
        assert MinPattern[j] in MinPattern;
      } else if j < |MinPattern| + |minId| {
        assert pre[j] == minId[j - |MinPattern|];
      }
    }
  }

  lemma CheckCodeLowerMatch(minId: string, maxId: string)
    requires minId != [] && AllDigits(minId)
    ensures FirstMatch(VersionCheckCode(minId, maxId), MinPattern) == Some(minId)
  {
    var post := maxId + ";";
    assert VersionCheckCode(minId, maxId) == MinPattern + minId + (";" + MaxPattern + post);
    LeadingMatch(MinPattern, minId, ";" + MaxPattern + post);
  }

  lemma CheckCodeUpperMatch(minId: string, maxId: string)
    requires AllDigits(minId) && maxId != [] && AllDigits(maxId)
    ensures FirstMatch(VersionCheckCode(minId, maxId), MaxPattern) == Some(maxId)
  {
    var pre := MinPattern + minId + ";";
    var post := maxId + ";";
    var rest := MaxPattern + post;
    assert rest == MaxPattern + maxId + ";";
    assert VersionCheckCode(minId, maxId) == pre + rest;
    assert FirstMatch(pre + rest, MaxPattern) == FirstMatch(rest, MaxPattern) by {
      LowerCheckHasNoGreater(minId);
      NoMaxPatternIn(pre, post);
      assert pre + MaxPattern + post == pre + rest;
      FirstMatchAfter(pre, rest, MaxPattern);
    }
    LeadingMatch(MaxPattern, maxId, ";");
  }

  /** On check code of that shape the window read back is the two decoded version ids. */
  lemma SupportedVersionsOfCheckCode(minId: string, maxId: string, lo: nat, hi: nat)
    requires AllDigits(minId) && AllDigits(maxId)
    requires ParseVersionId(minId) == Ok(lo) && ParseVersionId(maxId) == Ok(hi)
    ensures GetSupportedVersions(VersionCheckCode(minId, maxId)) == Ok(Window(lo, hi))
  {
    CheckCodeLowerMatch(minId, maxId);
    CheckCodeUpperMatch(minId, maxId);
  }

  /**
   * The same holds for any code around and between the two comparisons, as long as neither
   * pattern starts earlier than its comparison and no digit directly follows either id.
   */
  lemma SupportedVersionsOfEmbeddedChecks(pre: string, minId: string, mid: string, maxId: string,
                                          post: string, lo: nat, hi: nat)
    requires AllDigits(minId) && AllDigits(maxId)
    requires ParseVersionId(minId) == Ok(lo) && ParseVersionId(maxId) == Ok(hi)
    requires mid != [] && !IsDigit(mid[0])
    requires post == [] || !IsDigit(post[0])
    requires var c := pre + MinPattern + minId + mid + MaxPattern + maxId + post;
             forall p :: 0 <= p < |pre| ==> !(MinPattern <= c[p..])
    requires var c := pre + MinPattern + minId + mid + MaxPattern + maxId + post;
             forall p :: 0 <= p < |pre| + |MinPattern| + |minId| + |mid| ==> !(MaxPattern <= c[p..])
    ensures GetSupportedVersions(pre + MinPattern + minId + mid + MaxPattern + maxId + post)
            == Ok(Window(lo, hi))
  {
    var c := pre + MinPattern + minId + mid + MaxPattern + maxId + post;
    var after := mid + MaxPattern + maxId + post;
    assert c == pre + MinPattern + minId + after;
    MatchAfterPrefix(pre, MinPattern, minId, after);
    MatchAfterPrefix(pre + MinPattern + minId + mid, MaxPattern, maxId, post);
  }

  /** A key followed by digits is found after a prefix where the key starts nowhere. */
  lemma MatchAfterPrefix(pre: string, key: string, id: string, rest: string)
    requires id != [] && AllDigits(id)
    requires rest == [] || !IsDigit(rest[0])
    requires forall p :: 0 <= p < |pre| ==> !(key <= (pre + key + id + rest)[p..])
    ensures FirstMatch(pre + key + id + rest, key) == Some(id)
  {
    var tail := key + id + rest;
    assert pre + key + id + rest == pre + tail;
    FirstMatchAfter(pre, tail, key);
    LeadingMatch(key, id, rest);
  }

  /**
   * Composed with the encoding of PHP's version ids: for major.minor.patch bounds with one-digit
   * majors and minors, the window is the two major.minor versions in tenths.
   */
  lemma SupportedVersionsOfPhpVersions(lo: (nat, nat, nat), hi: (nat, nat, nat))
    requires lo.0 <= 9 && lo.1 <= 9 && lo.2 <= 99
    requires hi.0 <= 9 && hi.1 <= 9 && hi.2 <= 99
    ensures GetSupportedVersions(VersionCheckCode(PhpVersionIdText(lo.0, lo.1, lo.2),
                                                  PhpVersionIdText(hi.0, hi.1, hi.2)))
            == Ok(Window(10 * lo.0 + lo.1, 10 * hi.0 + hi.1))
  {
    ParseVersionIdText(lo.0, lo.1, lo.2);
    ParseVersionIdText(hi.0, hi.1, hi.2);
    SupportedVersionsOfCheckCode(PhpVersionIdText(lo.0, lo.1, lo.2), PhpVersionIdText(hi.0, hi.1, hi.2),
                                 10 * lo.0 + lo.1, 10 * hi.0 + hi.1);
  }

  // ---------------------------------------------------------------------------------------
  // The per-version lookups of the `Promise.all`

  /** What the action records for one platform version. */
  datatype VersionRecord = VersionRecord(phpMin: nat, phpMax: nat, branch: string)

  /** One mapped element: resolve the branch, then read that branch's PHP window. */
  function Lookup(version: int, branchExists: int -> bool, versionCheck: string -> string)
    : (r: Result<VersionRecord>)
    ensures var w := GetSupportedVersions(versionCheck(Resolve(version, branchExists(version))));
            && (r.Ok? <==> w.Ok?)
            && (r.Err? ==> r.error == w.error)
            && (r.Ok? ==> r.value.phpMin == w.value.min && r.value.phpMax == w.value.max)
    ensures r.Ok? ==> r.value.branch == Resolve(version, branchExists(version))
  {
    var branch := Resolve(version, branchExists(version));
    match GetSupportedVersions(versionCheck(branch))
    case Err(e) => Err(e)
    case Ok(w) => Ok(VersionRecord(w.min, w.max, branch))
  }

  /**
   * `Promise.all(versions.map(...))` taken in order: one record per version, in version order,
   * or an error when some lookup fails.
   */
  function VersionData(versions: seq<int>, branchExists: int -> bool, versionCheck: string -> string)
    : (r: Result<seq<VersionRecord>>)
    ensures r.Ok? <==> forall i :: 0 <= i < |versions| ==> Lookup(versions[i], branchExists, versionCheck).Ok?
    ensures r.Ok? ==> |r.value| == |versions|
    ensures r.Ok? ==> forall i :: 0 <= i < |versions| ==>
                        r.value[i] == Lookup(versions[i], branchExists, versionCheck).value
  {
    if versions == [] then Ok([])
    else
      match Lookup(versions[0], branchExists, versionCheck)
      case Err(e) => Err(e)
      case Ok(record) =>
        match VersionData(versions[1..], branchExists, versionCheck)
        case Err(e) => Err(e)
        case Ok(rest) => Ok([record] + rest)
  }

  /** The error reported is that of the first version, in version order, whose lookup fails. */
  lemma {:induction false} VersionDataFirstError(versions: seq<int>, branchExists: int -> bool,
                                                 versionCheck: string -> string)
    requires VersionData(versions, branchExists, versionCheck).Err?
    ensures exists i :: 0 <= i < |versions|
              && Lookup(versions[i], branchExists, versionCheck)
                 == Err(VersionData(versions, branchExists, versionCheck).error)
              && forall j :: 0 <= j < i ==> Lookup(versions[j], branchExists, versionCheck).Ok?
  {
    var e := VersionData(versions, branchExists, versionCheck).error;
    if Lookup(versions[0], branchExists, versionCheck).Err? {
      assert Lookup(versions[0], branchExists, versionCheck) == Err(e);
    } else {
      var tail := versions[1..];
      VersionDataFirstError(tail, branchExists, versionCheck);
      var i :| 0 <= i < |tail| && Lookup(tail[i], branchExists, versionCheck) == Err(e)
               && forall j :: 0 <= j < i ==> Lookup(tail[j], branchExists, versionCheck).Ok?;
      assert versions[i + 1] == tail[i];
      forall j | 0 <= j < i + 1 ensures Lookup(versions[j], branchExists, versionCheck).Ok? {
        if j > 0 {
          assert versions[j] == tail[j - 1];
        }
      }
    }
  }

  /** The records' branches are the branch list of the versions. */
  lemma RecordBranches(versions: seq<int>, branchExists: int -> bool, versionCheck: string -> string)
    requires VersionData(versions, branchExists, versionCheck).Ok?
    ensures BranchesOf(VersionData(versions, branchExists, versionCheck).value)
            == BranchList(versions, branchExists)
  {
    var vd := VersionData(versions, branchExists, versionCheck).value;
    var bl := BranchList(versions, branchExists);
    assert forall i :: 0 <= i < |vd| ==> BranchesOf(vd)[i] == bl[i];
  }

  function BranchesOf(vd: seq<VersionRecord>): seq<string> {
    seq(|vd|, i requires 0 <= i < |vd| => vd[i].branch)
  }

  function PhpMinsOf(vd: seq<VersionRecord>): seq<nat> {
    seq(|vd|, i requires 0 <= i < |vd| => vd[i].phpMin)
  }

  function PhpMaxesOf(vd: seq<VersionRecord>): seq<nat> {
    seq(|vd|, i requires 0 <= i < |vd| => vd[i].phpMax)
  }

  // ---------------------------------------------------------------------------------------
  // Output shaping

  /** One row of the `matrix` output. */
  datatype MatrixRow = MatrixRow(phpVersions: string, serverVersions: string)

  /**
   * For a version whose branch's check code compares against the PHP version ids of two
   * major.minor.patch bounds, the record holds those two major.minor versions in tenths and the
   * branch the version resolved to.
   */
  lemma LookupOfPhpVersions(version: int, branchExists: int -> bool, versionCheck: string -> string,
                            lo: (nat, nat, nat), hi: (nat, nat, nat))
    requires lo.0 <= 9 && lo.1 <= 9 && lo.2 <= 99
    requires hi.0 <= 9 && hi.1 <= 9 && hi.2 <= 99
    requires versionCheck(Resolve(version, branchExists(version)))
             == VersionCheckCode(PhpVersionIdText(lo.0, lo.1, lo.2), PhpVersionIdText(hi.0, hi.1, hi.2))
    ensures Lookup(version, branchExists, versionCheck)
            == Ok(VersionRecord(10 * lo.0 + lo.1, 10 * hi.0 + hi.1, Resolve(version, branchExists(version))))
  {
    SupportedVersionsOfPhpVersions(lo, hi);
  }

  /**
   * `versionData.map(...)`: one row per record, in record order and not deduplicated, whose PHP
   * version reads back as the record's minimum and whose server version is the record's branch.
   */
  function Matrix(vd: seq<VersionRecord>): (m: seq<MatrixRow>)
    ensures |m| == |vd|
    ensures forall i :: 0 <= i < |vd| ==>
              && m[i].phpVersions == FormatTenths(vd[i].phpMin)
              && ParseTenths(m[i].phpVersions) == Some(vd[i].phpMin)
              && m[i].serverVersions == vd[i].branch
  {
    FormatTenthsRoundTripAll();
    seq(|vd|, i requires 0 <= i < |vd| => MatrixRow(FormatTenths(vd[i].phpMin), vd[i].branch))
  }

  lemma FormatTenthsRoundTripAll()
    ensures forall t: nat :: ParseTenths(FormatTenths(t)) == Some(t)
  {
    forall t: nat ensures ParseTenths(FormatTenths(t)) == Some(t) {
      FormatTenthsRoundTrip(t);
    }
  }

  /** Every row's server version is an emitted branch, and every emitted branch has a row. */
  lemma MatrixCoversBranches(vd: seq<VersionRecord>)
    ensures forall i :: 0 <= i < |vd| ==> Matrix(vd)[i].serverVersions in Unique(BranchesOf(vd))
    ensures forall b :: b in Unique(BranchesOf(vd)) ==>
              exists i :: 0 <= i < |vd| && Matrix(vd)[i].serverVersions == b
  {
    var bs := BranchesOf(vd);
    var m := Matrix(vd);
    forall i | 0 <= i < |vd| ensures m[i].serverVersions in Unique(bs) {
      assert bs[i] == m[i].serverVersions;
    }
    forall b | b in Unique(bs) ensures exists i :: 0 <= i < |vd| && m[i].serverVersions == b {
      var k :| 0 <= k < |Unique(bs)| && Unique(bs)[k] == b;
      assert Unique(bs)[k] in bs;
      var i :| 0 <= i < |bs| && bs[i] == b;
      assert m[i].serverVersions == b;
    }
  }

  /** `Math.min(...xs)`; none stands for the `Infinity` that an empty argument list gives. */
  function MinOf(xs: seq<nat>): (m: Option<nat>)
    ensures m.None? <==> xs == []
    ensures m.Some? ==> m.value in xs && forall i :: 0 <= i < |xs| ==> m.value <= xs[i]
  {
    if xs == [] then None
    else
      match MinOf(xs[1..])
      case None => Some(xs[0])
      case Some(m) =>
        assert forall i :: 1 <= i < |xs| ==> xs[i] == xs[1..][i - 1];
        Some(if xs[0] <= m then xs[0] else m)
  }

  /** `Math.max(...xs)`; none stands for the `-Infinity` that an empty argument list gives. */
  function MaxOf(xs: seq<nat>): (m: Option<nat>)
    ensures m.None? <==> xs == []
    ensures m.Some? ==> m.value in xs && forall i :: 0 <= i < |xs| ==> xs[i] <= m.value
  {
    if xs == [] then None
    else
      match MaxOf(xs[1..])
      case None => Some(xs[0])
      case Some(m) =>
        assert forall i :: 1 <= i < |xs| ==> xs[i] == xs[1..][i - 1];
        Some(if m <= xs[0] then xs[0] else m)
  }

  /** `branches.map(branch => "dev-" + branch)`: one Composer branch name per branch, same order. */
  function DevBranches(branches: seq<string>): (r: seq<string>)
    ensures |r| == |branches|
    ensures forall i :: 0 <= i < |r| ==> |r[i]| >= 4 && r[i][..4] == "dev-" && r[i][4..] == branches[i]
  {
    seq(|branches|, i requires 0 <= i < |branches| => "dev-" + branches[i])
  }

  /** `[branches[0]]`; none stands for `undefined`. */
  function First(branches: seq<string>): Option<string> {
    if branches == [] then None else Some(branches[0])
  }

  /** `branches-min` is the branch of the lowest version: deduplication keeps the first branch first. */
  lemma FirstBranch(versions: seq<int>, branchExists: int -> bool)
    requires versions != []
    ensures First(Unique(BranchList(versions, branchExists)))
            == Some(Resolve(versions[0], branchExists(versions[0])))
  {
    var a := BranchList(versions, branchExists);
    var u := Unique(a);
    assert a[0] in u;
    var k :| 0 <= k < |u| && u[k] == a[0];
    assert IndexOf(a, u[k]) == 0;
    assert u[0] in a;
    assert IndexOf(a, u[0]) >= 0;
    assert k == 0;
  }

  /** `[branches.pop()]`; none stands for `undefined`. */
  function Last(branches: seq<string>): Option<string> {
    if branches == [] then None else Some(branches[|branches| - 1])
  }

  /** The probe confirms exactly the first `j` of `versions`. */
  predicate ConfirmsPrefix(versions: seq<int>, branchExists: int -> bool, j: nat)
    decreases |versions|
  {
    if versions == [] then j == 0
    else if j > 0 then branchExists(versions[0]) && ConfirmsPrefix(versions[1..], branchExists, j - 1)
    else !branchExists(versions[0]) && ConfirmsPrefix(versions[1..], branchExists, 0)
  }

  /**
   * `branches-max` is the branch of the highest version when the probe confirms exactly the first
   * `j` versions: the confirmed names come first, then `master` for all the rest.
   */
  lemma LastBranch(versions: seq<int>, branchExists: int -> bool, j: nat)
    requires versions != [] && versions[|versions| - 1] !in versions[..|versions| - 1]
    requires ConfirmsPrefix(versions, branchExists, j)
    ensures Last(Unique(BranchList(versions, branchExists)))
            == Some(Resolve(versions[|versions| - 1], branchExists(versions[|versions| - 1])))
  {
    var a := BranchList(versions, branchExists);
    var k := LastFirstOccurrence(versions, branchExists, j);
    LastOfUniqueRepeated(a, k);
  }

  /** Where the last branch first occurs, with every later branch a repeat of it. */
  lemma LastFirstOccurrence(versions: seq<int>, branchExists: int -> bool, j: nat) returns (k: nat)
    requires versions != [] && versions[|versions| - 1] !in versions[..|versions| - 1]
    requires ConfirmsPrefix(versions, branchExists, j)
    ensures var a := BranchList(versions, branchExists);
            k < |a| && a[k] !in a[..k] && a[k] == a[|a| - 1]
    ensures var a := BranchList(versions, branchExists);
            forall i :: k < i < |a| ==> a[i] == a[k]
  {
    var a := BranchList(versions, branchExists);
    BranchListShape(versions, branchExists, j);
    k := PositionOfLast(versions, j, a);
  }

  lemma PositionOfLast(versions: seq<int>, j: nat, a: seq<string>) returns (k: nat)
    requires versions != [] && versions[|versions| - 1] !in versions[..|versions| - 1]
    requires j <= |versions| == |a|
    requires forall i :: 0 <= i < j ==> a[i] == StableName(versions[i])
    requires forall i :: 0 <= i < j ==> a[i] != Fallback
    requires forall i :: j <= i < |versions| ==> a[i] == Fallback
    ensures k < |a| && a[k] !in a[..k] && a[k] == a[|a| - 1]
    ensures forall i :: k < i < |a| ==> a[i] == a[k]
  {
    var n := |a|;
    if j == n {
      forall i | 0 <= i < n - 1 ensures a[i] != a[n - 1] {
        assert versions[..n - 1][i] == versions[i];
        StableNamesDistinct(versions[i], versions[n - 1]);
      }
      k := n - 1;
    } else {
      k := j;
    }
  }

  /** With the probe confirming exactly the first `j` versions: `stable<N>` names, then `master`. */
  lemma {:induction false} BranchListShape(versions: seq<int>, branchExists: int -> bool, j: nat)
    requires ConfirmsPrefix(versions, branchExists, j)
    ensures j <= |versions|
    ensures forall i :: 0 <= i < j ==> BranchList(versions, branchExists)[i] == StableName(versions[i])
    ensures forall i :: 0 <= i < j ==> BranchList(versions, branchExists)[i] != Fallback
    ensures forall i :: j <= i < |versions| ==> BranchList(versions, branchExists)[i] == Fallback
    decreases |versions|
  {
    if versions != [] {
      var rest := versions[1..];
      var j' := if j > 0 then j - 1 else 0;
      BranchListShape(rest, branchExists, j');
      var a := BranchList(versions, branchExists);
      assert forall i :: 1 <= i < |versions| ==> a[i] == BranchList(rest, branchExists)[i - 1] && versions[i] == rest[i - 1];
    }
  }

  /**
   * Without that shape of answers `branches-max` need not be the highest version's branch: with
   * only 28 confirmed among 27, 28 and 29 it is `stable28`, while 29 resolves to `master`.
   */
  lemma LastBranchOfGap()
    ensures Last(Unique(BranchList([27, 28, 29], v => v == 28))) == Some(StableName(28))
    ensures Resolve(29, false) == Fallback
  {
    var a := BranchList([27, 28, 29], v => v == 28);
    assert a == [Fallback, StableName(28), Fallback];
    assert StableName(28) != Fallback by {
      assert StableName(28)[0] != Fallback[0];
    }
    assert a[2] == a[..2][0];
    LastOfUnique(a, 1);
  }

  // ---------------------------------------------------------------------------------------
  // The released PHP versions and the walk over them

  /** `parseFloat` of each heading. */
  function ParseFloats(headings: seq<string>): seq<real> {
    seq(|headings|, i requires 0 <= i < |headings| => ParseFloat(headings[i]))
  }

  /** `(await getAllPhpVersions()).map(parseFloat).filter(onlyUnique)` on the fetched page. */
  function PossiblePhpVersions(releasesHtml: string): seq<real> {
    Unique(ParseFloats(Headings(releasesHtml)))
  }

  /**
   * Whatever page was fetched, every possible PHP version is the major.minor value of some
   * release heading on it.
   */
  lemma PossibleFromHeadings(releasesHtml: string, v: real)
    ensures v in PossiblePhpVersions(releasesHtml) ==>
              exists r :: ValidRelease(r) && ReleaseText(r) in Headings(releasesHtml)
                          && v == DecimalValue(r.major, r.minor)
  {
    if v !in PossiblePhpVersions(releasesHtml) {
      return;
    }
    var hs := Headings(releasesHtml);
    UniqueMembers(ParseFloats(hs), v);
    var i :| 0 <= i < |hs| && ParseFloats(hs)[i] == v;
    HeadingsAreReleases(releasesHtml);
    assert hs[i] in hs;
    var r :| ValidRelease(r) && ReleaseText(r) == hs[i];
    ParseFloatOfRelease(r);
  }

  /** `possiblePhpVersions.includes(version)` for a version of `t` tenths. */
  predicate Released(possible: seq<real>, t: nat) {
    t as real / 10.0 in possible
  }

  /** A release's major.minor in tenths. */
  function ReleaseTenths(r: Release): nat
    requires ValidRelease(r)
  {
    10 * DigitsValue(r.major) + DigitsValue(r.minor)
  }

  lemma ParseFloatOfShortRelease(r: Release)
    requires ValidRelease(r) && |r.minor| == 1
    ensures ParseFloat(ReleaseText(r)) == ReleaseTenths(r) as real / 10.0
  {
    ParseFloatOfRelease(r);
    assert Pow10(|r.minor|) == 10;
    assert DecimalValue(r.major, r.minor) == DigitsValue(r.major) as real + DigitsValue(r.minor) as real / 10.0;
  }

  /** The parsed headings of a releases page, one per section, in page order. */
  lemma PageFloats(ss: seq<Section>, tail: string)
    requires WellFormedPage(ss, tail)
    requires forall i :: 0 <= i < |ss| ==> |ss[i].release.minor| == 1
    ensures |ParseFloats(Headings(ReleasesPage(ss, tail)))| == |ss|
    ensures forall i :: 0 <= i < |ss| ==>
              ParseFloats(Headings(ReleasesPage(ss, tail)))[i] == ReleaseTenths(ss[i].release) as real / 10.0
  {
    HeadingsOfReleasesPage(ss, tail);
    forall i | 0 <= i < |ss|
      ensures ParseFloat(ReleaseTexts(ss)[i]) == ReleaseTenths(ss[i].release) as real / 10.0
    {
      ParseFloatOfShortRelease(ss[i].release);
    }
  }

  lemma TenthsInjective(a: nat, b: nat)
    requires a as real / 10.0 == b as real / 10.0
    ensures a == b
  {
    assert a as real == (a as real / 10.0) * 10.0;
  }

  lemma FloatsAmong(fs: seq<real>, ss: seq<Section>, t: nat)
    requires forall i :: 0 <= i < |ss| ==> ValidRelease(ss[i].release)
    requires |fs| == |ss| && forall i :: 0 <= i < |ss| ==> fs[i] == ReleaseTenths(ss[i].release) as real / 10.0
    ensures t as real / 10.0 in fs <==> exists i :: 0 <= i < |ss| && ReleaseTenths(ss[i].release) == t
  {
    var v := t as real / 10.0;
    if v in fs {
      var i :| 0 <= i < |fs| && fs[i] == v;
      TenthsInjective(ReleaseTenths(ss[i].release), t);
    }
    forall i | 0 <= i < |ss| && ReleaseTenths(ss[i].release) == t ensures v in fs {
      assert fs[i] == v;
    }
  }

  lemma ReleasedAmong(fs: seq<real>, ss: seq<Section>, t: nat)
    requires forall i :: 0 <= i < |ss| ==> ValidRelease(ss[i].release)
    requires |fs| == |ss| && forall i :: 0 <= i < |ss| ==> fs[i] == ReleaseTenths(ss[i].release) as real / 10.0
    ensures Released(Unique(fs), t) <==> exists i :: 0 <= i < |ss| && ReleaseTenths(ss[i].release) == t
  {
    UniqueMembers(fs, t as real / 10.0);
    FloatsAmong(fs, ss, t);
  }

  /**
   * On a releases page whose minor numbers have one digit, the version of `t` tenths counts as
   * released exactly when some section's heading has that major and minor.
   */
  lemma ReleasedOnPage(ss: seq<Section>, tail: string, t: nat)
    requires WellFormedPage(ss, tail)
    requires forall i :: 0 <= i < |ss| ==> |ss[i].release.minor| == 1
    ensures Released(PossiblePhpVersions(ReleasesPage(ss, tail)), t)
            <==> exists i :: 0 <= i < |ss| && ReleaseTenths(ss[i].release) == t
  {
    PageFloats(ss, tail);
    ReleasedAmong(ParseFloats(Headings(ReleasesPage(ss, tail))), ss, t);
  }

  /** The versions from `lo` to `hi` tenths, stepping by one tenth, that have been released. */
  function Walk(lo: nat, hi: nat, possible: seq<real>): seq<nat>
    decreases hi + 1 - lo
  {
    if lo > hi then [] else (if Released(possible, lo) then [lo] else []) + Walk(lo + 1, hi, possible)
  }

  /**
   * The walk holds exactly the released versions between its bounds, both included, in strictly
   * ascending order; every step that was not released is skipped.
   */
  lemma {:induction false} WalkFacts(lo: nat, hi: nat, possible: seq<real>)
    ensures forall t: nat :: t in Walk(lo, hi, possible) <==> lo <= t <= hi && Released(possible, t)
    ensures forall i, j :: 0 <= i < j < |Walk(lo, hi, possible)| ==>
              Walk(lo, hi, possible)[i] < Walk(lo, hi, possible)[j]
  {
    WalkMembers(lo, hi, possible);
    WalkAscending(lo, hi, possible);
  }

  lemma {:induction false} WalkMembers(lo: nat, hi: nat, possible: seq<real>)
    ensures forall t: nat :: t in Walk(lo, hi, possible) <==> lo <= t <= hi && Released(possible, t)
    decreases hi + 1 - lo
  {
    if lo <= hi {
      WalkMembers(lo + 1, hi, possible);
      WalkStep(lo, hi, possible);
    }
  }

  lemma {:induction false} WalkAscending(lo: nat, hi: nat, possible: seq<real>)
    ensures forall i, j :: 0 <= i < j < |Walk(lo, hi, possible)| ==>
              Walk(lo, hi, possible)[i] < Walk(lo, hi, possible)[j]
    decreases hi + 1 - lo
  {
    if lo <= hi {
      WalkAscending(lo + 1, hi, possible);
      WalkStep(lo, hi, possible);
      var rest := Walk(lo + 1, hi, possible);
      if Released(possible, lo) {
        WalkMembers(lo + 1, hi, possible);
        var w := [lo] + rest;
        forall i, j | 0 <= i < j < |w| ensures w[i] < w[j] {
          assert w[j] == rest[j - 1] && w[j] in rest;
          if i > 0 {
            assert w[i] == rest[i - 1];
          }
        }
      }
    }
  }

  lemma WalkStep(lo: nat, hi: nat, possible: seq<real>)
    requires lo <= hi
    ensures Released(possible, lo) ==> Walk(lo, hi, possible) == [lo] + Walk(lo + 1, hi, possible)
    ensures !Released(possible, lo) ==> Walk(lo, hi, possible) == Walk(lo + 1, hi, possible)
  {
    var rest := Walk(lo + 1, hi, possible);
    assert [] + rest == rest;
  }

  /** Each released version between the bounds appears exactly once, and nothing else appears. */
  lemma WalkOnce(lo: nat, hi: nat, possible: seq<real>, t: nat)
    ensures multiset(Walk(lo, hi, possible))[t] == if lo <= t <= hi && Released(possible, t) then 1 else 0
  {
    var w := Walk(lo, hi, possible);
    WalkFacts(lo, hi, possible);
    assert NoDuplicates(w);
    DistinctCount(w, t);
  }

  /** `x.toFixed(1)` of each version. */
  function Formatted(ts: seq<nat>): seq<string> {
    if ts == [] then [] else [FormatTenths(ts[0])] + Formatted(ts[1..])
  }

  /** One text per version, in order. */
  lemma {:induction false} FormattedIndex(ts: seq<nat>)
    ensures |Formatted(ts)| == |ts|
    ensures forall i :: 0 <= i < |ts| ==> Formatted(ts)[i] == FormatTenths(ts[i])
  {
    if ts != [] {
      FormattedIndex(ts[1..]);
      var f := Formatted(ts);
      forall i | 1 <= i < |ts| ensures f[i] == FormatTenths(ts[i]) {
        assert f[i] == Formatted(ts[1..])[i - 1];
        assert ts[i] == ts[1..][i - 1];
      }
    }
  }

  lemma FormattedCons(t: nat, rest: seq<nat>)
    ensures Formatted([t] + rest) == [FormatTenths(t)] + Formatted(rest)
  {
    assert ([t] + rest)[1..] == rest;
  }

  lemma FormattedWalkStep(lo: nat, hi: nat, possible: seq<real>)
    requires lo <= hi
    ensures Released(possible, lo) ==>
              Formatted(Walk(lo, hi, possible)) == [FormatTenths(lo)] + Formatted(Walk(lo + 1, hi, possible))
    ensures !Released(possible, lo) ==>
              Formatted(Walk(lo, hi, possible)) == Formatted(Walk(lo + 1, hi, possible))
  {
    WalkStep(lo, hi, possible);
    if Released(possible, lo) {
      FormattedCons(lo, Walk(lo + 1, hi, possible));
    }
  }

  /**
   * The loop of the action: from `phpMin` up to `phpMax` one tenth at a time, appending the text
   * of each released version.
   */
  lemma PushThenRest(php: seq<string>, text: string, rest: seq<string>)
    ensures php + ([text] + rest) == (php + [text]) + rest
  {
  }

  method PhpWalk(phpMin: nat, phpMax: nat, possible: seq<real>) returns (php: seq<string>)
    ensures php == Formatted(Walk(phpMin, phpMax, possible))
  {
    php := [];
    var version := phpMin;
    ghost var all := Formatted(Walk(phpMin, phpMax, possible));
    while version <= phpMax
      invariant phpMin <= version
      invariant php + Formatted(Walk(version, phpMax, possible)) == all
      decreases phpMax + 1 - version
    {
      FormattedWalkStep(version, phpMax, possible);
      if Released(possible, version) {
        var text := FormatTenths(version);
        PushThenRest(php, text, Formatted(Walk(version + 1, phpMax, possible)));
        php := php + [text];
      }
      version := version + 1;
    }
  }

  /**
   * The texts the walk emits are distinct, and the text of a version is among them exactly when
   * that version lies between the bounds and was released.
   */
  lemma PhpVersionsExactly(lo: nat, hi: nat, possible: seq<real>)
    ensures NoDuplicates(Formatted(Walk(lo, hi, possible)))
    ensures forall t: nat ::
              FormatTenths(t) in Formatted(Walk(lo, hi, possible)) <==> lo <= t <= hi && Released(possible, t)
  {
    var w := Walk(lo, hi, possible);
    var f := Formatted(w);
    WalkFacts(lo, hi, possible);
    FormattedIndex(w);
    forall i, j | 0 <= i < j < |f| ensures f[i] != f[j] {
      if f[i] == f[j] {
        FormatTenthsInjective(w[i], w[j]);
      }
    }
    forall t: nat ensures FormatTenths(t) in f <==> t in w {
      if FormatTenths(t) in f {
        var i :| 0 <= i < |f| && f[i] == FormatTenths(t);
        FormatTenthsInjective(w[i], t);
      }
      if t in w {
        var i :| 0 <= i < |w| && w[i] == t;
        assert f[i] == FormatTenths(t);
      }
    }
  }

  /** The PHP bounds are the least minimum and the greatest maximum of the records, none when there are none. */
  lemma RecordBounds(vd: seq<VersionRecord>)
    ensures MinOf(PhpMinsOf(vd)).None? <==> vd == []
    ensures MaxOf(PhpMaxesOf(vd)).None? <==> vd == []
    ensures vd != [] ==>
              && (forall i :: 0 <= i < |vd| ==> MinOf(PhpMinsOf(vd)).value <= vd[i].phpMin)
              && (forall i :: 0 <= i < |vd| ==> vd[i].phpMax <= MaxOf(PhpMaxesOf(vd)).value)
              && (exists i :: 0 <= i < |vd| && vd[i].phpMin == MinOf(PhpMinsOf(vd)).value)
              && (exists i :: 0 <= i < |vd| && vd[i].phpMax == MaxOf(PhpMaxesOf(vd)).value)
  {
    var mins, maxes := PhpMinsOf(vd), PhpMaxesOf(vd);
    assert |mins| == |vd| == |maxes|;
    if vd != [] {
      var lo, hi := MinOf(mins).value, MaxOf(maxes).value;
      var k :| 0 <= k < |mins| && mins[k] == lo;
      var l :| 0 <= l < |maxes| && maxes[l] == hi;
      assert vd[k].phpMin == lo && vd[l].phpMax == hi;
      assert forall i :: 0 <= i < |vd| ==> mins[i] == vd[i].phpMin && maxes[i] == vd[i].phpMax;
    }
  }

  // ---------------------------------------------------------------------------------------
  // The whole run

  /** The named outputs of the action. */
  datatype ActionOutputs = ActionOutputs(
    versions: seq<int>,
    branches: seq<string>,
    ocpBranches: seq<string>,
    phpVersions: seq<string>,
    phpMin: Option<nat>,
    phpMax: Option<nat>,
    branchesMin: Option<string>,
    branchesMax: Option<string>,
    matrix: seq<MatrixRow>)

  /**
   * The body of the action: expand the manifest range, look up every version, scrape the release
   * list, and shape the outputs; any error aborts the run before an output is written.
   */
  method Run(minVersion: int, maxVersion: int, branchExists: int -> bool,
             versionCheck: string -> string, releasesHtml: string)
    returns (result: Result<ActionOutputs>)
    ensures result.Ok? <==> Range(minVersion, maxVersion).Ok?
                            && VersionData(Range(minVersion, maxVersion).value, branchExists, versionCheck).Ok?
    ensures Range(minVersion, maxVersion).Err? ==> result == Err(Range(minVersion, maxVersion).error)
    ensures Range(minVersion, maxVersion).Ok?
            && VersionData(Range(minVersion, maxVersion).value, branchExists, versionCheck).Err?
            ==> result == Err(VersionData(Range(minVersion, maxVersion).value, branchExists, versionCheck).error)
    ensures result.Ok? ==>
              && Range(minVersion, maxVersion).Ok?
              && var vs := Range(minVersion, maxVersion).value;
              && VersionData(vs, branchExists, versionCheck).Ok?
              && var vd := VersionData(vs, branchExists, versionCheck).value;
              && var o := result.value;
              && o.versions == vs
              && o.matrix == Matrix(vd)
              && o.branches == Unique(BranchList(vs, branchExists))
              && o.ocpBranches == DevBranches(o.branches)
              && o.phpMin == MinOf(PhpMinsOf(vd))
              && o.phpMax == MaxOf(PhpMaxesOf(vd))
              && o.phpVersions == (if vd == [] then [] else
                                     Formatted(Walk(o.phpMin.value, o.phpMax.value,
                                                    PossiblePhpVersions(releasesHtml))))
              && o.branchesMin == First(o.branches)
              && o.branchesMax == Last(o.branches)
  {
    var range := Range(minVersion, maxVersion);
    if range.Err? {
      return Err(range.error);
    }
    var versions := range.value;
    var data := VersionData(versions, branchExists, versionCheck);
    if data.Err? {
      return Err(data.error);
    }
    var versionData := data.value;
    var possible := PossiblePhpVersions(releasesHtml);
    var matrix := Matrix(versionData);
    RecordBranches(versions, branchExists, versionCheck);
    var branches := Unique(BranchesOf(versionData));
    var phpMin := MinOf(PhpMinsOf(versionData));
    var phpMax := MaxOf(PhpMaxesOf(versionData));
    var php: seq<string> := [];
    if phpMin.Some? && phpMax.Some? {
      php := PhpWalk(phpMin.value, phpMax.value, possible);
    }
    result := Ok(ActionOutputs(versions, branches, DevBranches(branches), php, phpMin, phpMax,
                               First(branches), Last(branches), matrix));
  }

  /**
   * On a successful run the PHP bounds exist exactly when the range is not empty, and the branch
   * list names every version's branch once: `master` when some version was not confirmed, and
   * the confirmed `stable<N>` names in version order.
   */
  lemma RunOutputs(minVersion: int, maxVersion: int, branchExists: int -> bool,
                   versionCheck: string -> string, o: ActionOutputs)
    requires Range(minVersion, maxVersion).Ok?
    requires VersionData(Range(minVersion, maxVersion).value, branchExists, versionCheck).Ok?
    requires var vs := Range(minVersion, maxVersion).value;
             var vd := VersionData(vs, branchExists, versionCheck).value;
             && o.versions == vs
             && o.branches == Unique(BranchList(vs, branchExists))
             && o.phpMin == MinOf(PhpMinsOf(vd))
             && o.phpMax == MaxOf(PhpMaxesOf(vd))
    ensures o.phpMin.Some? <==> minVersion <= maxVersion
    ensures o.phpMax.Some? <==> minVersion <= maxVersion
    ensures NoDuplicates(o.branches)
    ensures Fallback in o.branches <==> exists i :: 0 <= i < |o.versions| && !branchExists(o.versions[i])
    ensures Without(o.branches, Fallback) == StableNames(Confirmed(o.versions, branchExists))
    ensures StrictlyAscending(Confirmed(o.versions, branchExists))
  {
    var vs := Range(minVersion, maxVersion).value;
    RangeMembers(minVersion, maxVersion);
    EmittedBranches(vs, branchExists);
    RecordBounds(VersionData(vs, branchExists, versionCheck).value);
  }
}
