/**
 * The frontend's update check: the dotted-version comparison
 * `isNewerVersion` and the guards before the App Store prompt.
 */
module VersionCheck {
  import opened Wrappers
  import opened Strings
  import opened Numerals

  /** A number `parseInt` produced, or `NaN`. */
  datatype Component = Num(n: int) | NaN

  /**
   * JavaScript's `parseInt(s, 10)`: leading white space is skipped, one
   * optional sign is read, then the longest run of decimal digits; without
   * any digit the result is `NaN`.
   */
  function ParseInt(s: string): (c: Component)
    ensures c.Num? <==> var t := TrimStart(s, IsJsSpace);
      var rest := if |t| > 0 && (t[0] == '-' || t[0] == '+') then t[1..] else t;
      |rest| > 0 && IsDigit(rest[0])
  {
    var t := TrimStart(s, IsJsSpace);
    var signed := |t| > 0 && (t[0] == '-' || t[0] == '+');
    var rest := if signed then t[1..] else t;
    var digits := LeadingDigits(rest);
    if digits == [] then NaN
    else if signed && t[0] == '-' then Num(-(DigitsValue(digits) as int))
    else Num(DigitsValue(digits))
  }

  /** A numeral followed by anything that is not a digit reads back as its number. */
  lemma ParseIntOfDecimal(n: nat, suffix: string)
    requires suffix == [] || !IsDigit(suffix[0])
    ensures ParseInt(Decimal(n) + suffix) == Num(n)
  {
    var s := Decimal(n) + suffix;
    var d := Decimal(n);
    assert s[0] == d[0];
    TrimStartOfClean(s, IsJsSpace);
    LeadingDigitsOfDecimalPrefix(d, suffix);
    DigitsValueOfDecimal(n);
  }

  lemma {:induction false} LeadingDigitsOfDecimalPrefix(d: string, suffix: string)
    requires AllDigits(d)
    requires suffix == [] || !IsDigit(suffix[0])
    ensures LeadingDigits(d + suffix) == d
  {
    if d != [] {
      assert (d + suffix)[1..] == d[1..] + suffix;
      LeadingDigitsOfDecimalPrefix(d[1..], suffix);
    }
  }

  /** `parseInt(n || '0', 10)` for one piece of a version string. */
  function PieceValue(piece: string): Component {
    ParseInt(if piece == "" then "0" else piece)
  }

  /** `v.split('.').map(...)`: the numeric components of a version string. */
  function Components(v: string): (cs: seq<Component>)
    ensures |cs| == |Split(v, '.')|
    ensures forall i :: 0 <= i < |cs| ==> cs[i] == PieceValue(Split(v, '.')[i])
  {
    var pieces := Split(v, '.');
    seq(|pieces|, i requires 0 <= i < |pieces| => PieceValue(pieces[i]))
  }

  /** `cs[i] ?? 0`: a missing component counts as 0, a `NaN` one stays `NaN`. */
  function At(cs: seq<Component>, i: nat): Component {
    if i < |cs| then cs[i] else Num(0)
  }

  /** JavaScript's `a > b` on numbers: false whenever either side is `NaN`. */
  predicate Gt(a: Component, b: Component) {
    a.Num? && b.Num? && a.n > b.n
  }

  function Max(a: nat, b: nat): nat {
    if a < b then b else a
  }

  /** The loop of `isNewerVersion` from index `i` on. */
  function NewerFrom(r: seq<Component>, l: seq<Component>, i: nat): bool
    decreases Max(|r|, |l|) - i
  {
    if i >= Max(|r|, |l|) then false
    else if Gt(At(r, i), At(l, i)) then true
    else if Gt(At(l, i), At(r, i)) then false
    else NewerFrom(r, l, i + 1)
  }

  /**
   * `isNewerVersion(remote, local)`: true exactly when, scanning the
   * components left to right, the first position that differs either way
   * has the remote's component the greater.
   */
  function IsNewerVersion(remote: string, local: string): (b: bool)
    ensures b <==> exists k :: DecidedNewerAt(Components(remote), Components(local), 0, k)
  {
    NewerFromMeaning(Components(remote), Components(local), 0);
    NewerFrom(Components(remote), Components(local), 0)
  }

  /** At position `k` the remote component is greater, and no earlier position from `i` on decided. */
  predicate DecidedNewerAt(r: seq<Component>, l: seq<Component>, i: nat, k: nat) {
    && i <= k
    && Gt(At(r, k), At(l, k))
    && forall j :: i <= j < k ==> !Gt(At(r, j), At(l, j)) && !Gt(At(l, j), At(r, j))
  }

  /**
   * The loop answers "newer" exactly when some position is decided in the
   * remote's favour with no earlier position decided either way.
   */
  lemma {:induction false} NewerFromMeaning(r: seq<Component>, l: seq<Component>, i: nat)
    decreases Max(|r|, |l|) - i
    ensures NewerFrom(r, l, i) <==> exists k :: DecidedNewerAt(r, l, i, k)
  {
    if i >= Max(|r|, |l|) {
      forall k | i <= k ensures !Gt(At(r, k), At(l, k)) {
      }
    } else if Gt(At(r, i), At(l, i)) {
      assert DecidedNewerAt(r, l, i, i);
    } else if Gt(At(l, i), At(r, i)) {
      forall k | i < k ensures !DecidedNewerAt(r, l, i, k) {
      }
    } else {
      NewerFromMeaning(r, l, i + 1);
      if NewerFrom(r, l, i + 1) {
        var k :| DecidedNewerAt(r, l, i + 1, k);
        assert DecidedNewerAt(r, l, i, k);
      }
      forall k | DecidedNewerAt(r, l, i, k) ensures DecidedNewerAt(r, l, i + 1, k) {
      }
    }
  }

  /** No version is newer than itself. */
  lemma {:induction false} NewerIrreflexive(cs: seq<Component>, i: nat)
    decreases Max(|cs|, |cs|) - i
    ensures !NewerFrom(cs, cs, i)
  {
    if i < Max(|cs|, |cs|) {
      NewerIrreflexive(cs, i + 1);
    }
  }

  lemma IsNewerVersionIrreflexive(v: string)
    ensures !IsNewerVersion(v, v)
  {
    NewerIrreflexive(Components(v), 0);
  }

  /** Two versions are never each newer than the other. */
  lemma {:induction false} NewerAsymmetric(r: seq<Component>, l: seq<Component>, i: nat)
    decreases Max(|r|, |l|) - i
    ensures !(NewerFrom(r, l, i) && NewerFrom(l, r, i))
  {
    if i < Max(|r|, |l|) && !Gt(At(r, i), At(l, i)) && !Gt(At(l, i), At(r, i)) {
      assert Max(|l|, |r|) == Max(|r|, |l|);
      NewerAsymmetric(r, l, i + 1);
    }
  }

  lemma IsNewerVersionAsymmetric(a: string, b: string)
    ensures !(IsNewerVersion(a, b) && IsNewerVersion(b, a))
  {
    NewerAsymmetric(Components(a), Components(b), 0);
  }

  /** Only the padded component values matter: an explicit trailing 0 changes nothing. */
  lemma SamePaddedComponents(r: seq<Component>, r': seq<Component>, l: seq<Component>)
    requires forall j: nat :: At(r, j) == At(r', j)
    ensures NewerFrom(r, l, 0) == NewerFrom(r', l, 0)
    ensures NewerFrom(l, r, 0) == NewerFrom(l, r', 0)
  {
    NewerFromMeaning(r, l, 0);
    NewerFromMeaning(r', l, 0);
    NewerFromMeaning(l, r, 0);
    NewerFromMeaning(l, r', 0);
    forall k | DecidedNewerAt(r, l, 0, k) ensures DecidedNewerAt(r', l, 0, k) { }
    forall k | DecidedNewerAt(r', l, 0, k) ensures DecidedNewerAt(r, l, 0, k) { }
    forall k | DecidedNewerAt(l, r, 0, k) ensures DecidedNewerAt(l, r', 0, k) { }
    forall k | DecidedNewerAt(l, r', 0, k) ensures DecidedNewerAt(l, r, 0, k) { }
  }

  /** "1.0" and "1.0.0" compare as equal: neither is newer than the other. */
  lemma TrailingZeroIsInvisible(v: string, other: string)
    ensures IsNewerVersion(v + ".0", other) == IsNewerVersion(v, other)
    ensures IsNewerVersion(other, v + ".0") == IsNewerVersion(other, v)
  {
    assert v + ".0" == v + ['.'] + "0";
    SplitAppendPiece(v, '.', "0");
    var r := Components(v);
    var r' := Components(v + ".0");
    assert |r'| == |r| + 1;
    forall j: nat ensures At(r, j) == At(r', j) {
      if j < |r| {
        assert Split(v + ".0", '.')[j] == Split(v, '.')[j];
      } else if j == |r| {
        assert Split(v + ".0", '.')[j] == "0";
        assert PieceValue("0") == Num(0) by {
          ParseIntOfDecimal(0, "");
        }
      }
    }
    SamePaddedComponents(r, r', Components(other));
  }

  /**
   * Without `NaN` components the comparison is the lexicographic order on
   * the zero-padded component lists.
   */
  lemma LexicographicWithoutNaN(r: seq<Component>, l: seq<Component>)
    requires forall j :: 0 <= j < |r| ==> r[j].Num?
    requires forall j :: 0 <= j < |l| ==> l[j].Num?
    ensures NewerFrom(r, l, 0) <==> exists k: nat ::
      At(r, k).n > At(l, k).n && forall j :: 0 <= j < k ==> At(r, j).n == At(l, j).n
  {
    NewerFromMeaning(r, l, 0);
    forall k: nat | DecidedNewerAt(r, l, 0, k)
      ensures At(r, k).n > At(l, k).n && forall j :: 0 <= j < k ==> At(r, j).n == At(l, j).n
    {
      forall j | 0 <= j < k ensures At(r, j).n == At(l, j).n {
        assert !Gt(At(r, j), At(l, j)) && !Gt(At(l, j), At(r, j));
      }
    }
    forall k: nat | At(r, k).n > At(l, k).n && (forall j :: 0 <= j < k ==> At(r, j).n == At(l, j).n)
      ensures DecidedNewerAt(r, l, 0, k)
    {
    }
  }

  /** `import.meta.env.VITE_APP_VERSION || '1.0.0'`. */
  function CurrentVersion(env: Option<string>): (v: string)
    ensures v != ""
    ensures env.Some? && env.value != "" ==> v == env.value
  {
    if env.Some? && env.value != "" then env.value else "1.0.0"
  }

  /** The iTunes lookup: a thrown request, an HTTP error status, or the `results` array (each entry's `version`). */
  datatype Lookup =
    | RequestThrew
    | HttpError(status: int)
    | Payload(results: Option<seq<Option<string>>>)

  /** Whether the confirmation was shown, and whether the App Store was then opened. */
  datatype UpdateCheck = UpdateCheck(prompted: bool, openedStore: bool)

  /** The latest version the lookup reports, when every guard before the comparison passes. */
  function LatestVersion(lookup: Lookup): (r: Option<string>)
    ensures r.Some? <==> lookup.Payload? && lookup.results.Some? && |lookup.results.value| > 0 && Truthy(lookup.results.value[0])
    ensures r.Some? ==> r.value != "" && r == lookup.results.value[0]
  {
    if !lookup.Payload? || lookup.results.None? || |lookup.results.value| == 0 then None
    else if lookup.results.value[0].None? || lookup.results.value[0].value == "" then None
    else lookup.results.value[0]
  }

  /**
   * `checkForUpdate`: prompt only for a strictly newer store version, and
   * open the store only when the user confirms.
   */
  function CheckForUpdate(lookup: Lookup, env: Option<string>, confirmed: bool): (r: UpdateCheck)
    ensures r.prompted ==> lookup.Payload? && LatestVersion(lookup).Some?
    ensures r.prompted <==> LatestVersion(lookup).Some? && IsNewerVersion(LatestVersion(lookup).value, CurrentVersion(env))
    ensures r.openedStore <==> r.prompted && confirmed
  {
    var latest := LatestVersion(lookup);
    if latest.None? then UpdateCheck(false, false)
    else if CurrentVersion(env) == "" then UpdateCheck(false, false)
    else if !IsNewerVersion(latest.value, CurrentVersion(env)) then UpdateCheck(false, false)
    else UpdateCheck(true, confirmed)
  }

  /** A prompt never offers the installed version, nor an older one. */
  lemma PromptMeansStrictlyNewer(lookup: Lookup, env: Option<string>, confirmed: bool)
    ensures CheckForUpdate(lookup, env, confirmed).prompted ==>
      && LatestVersion(lookup).Some?
      && LatestVersion(lookup).value != CurrentVersion(env)
      && !IsNewerVersion(CurrentVersion(env), LatestVersion(lookup).value)
  {
    if CheckForUpdate(lookup, env, confirmed).prompted {
      IsNewerVersionIrreflexive(CurrentVersion(env));
      IsNewerVersionAsymmetric(LatestVersion(lookup).value, CurrentVersion(env));
    }
  }
}
