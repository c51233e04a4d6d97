/**
 * `Utils.getSlackLocation`: pick the `app-<version>` directory of the Slack install
 * under `%LOCALAPPDATA%\slack` with the largest version key and return the path of its
 * `slack.exe`.  The environment and the file system are given as inputs: whether
 * `LOCALAPPDATA` is set, whether the slack directory exists, the names `readdirSync`
 * lists in it, and which install directories hold a `slack.exe`.
 */
module Install {
  import opened Wrappers
  import opened JsObject
  import opened JsNumber
  import opened Release

  /**
   * The outcome of a call: `Found(d)` is the path `<slackDir>\<d>\slack.exe`, `NotFound`
   * is the `null` return, and `Threw` is the TypeError `path.join` raises when handed
   * `undefined`: an unset `LOCALAPPDATA`, or a missing `versions[latestVersion]`.
   */
  datatype Location = Found(installDir: string) | NotFound | Threw

  predicate IsA(c: char) {
    c == 'a' || c == 'A'
  }

  predicate IsP(c: char) {
    c == 'p' || c == 'P'
  }

  /**
   * `name.replaceAll(/(app|[.-])/ig, '')`: scanning left to right, drop every
   * case-insensitive "app" and every "." and "-".
   */
  function VersionKey(name: string): (k: string)
    ensures forall i :: 0 <= i < |k| ==> k[i] != '.' && k[i] != '-'
    ensures |k| <= |name|
    decreases |name|
  {
    if name == [] then []
    else if |name| >= 3 && IsA(name[0]) && IsP(name[1]) && IsP(name[2]) then VersionKey(name[3..])
    else if name[0] == '.' || name[0] == '-' then VersionKey(name[1..])
    else [name[0]] + VersionKey(name[1..])
  }

  /** A leading "app", in any case, is dropped. */
  lemma VersionKeyDropsApp(app: string, rest: string)
    requires |app| == 3 && IsA(app[0]) && IsP(app[1]) && IsP(app[2])
    ensures VersionKey(app + rest) == VersionKey(rest)
  {
    assert (app + rest)[3..] == rest;
  }

  /** A name without ".", "-" or any case-insensitive "app" is its own key. */
  lemma {:induction false} VersionKeyPlain(s: string)
    requires forall i :: 0 <= i < |s| ==> s[i] != '.' && s[i] != '-'
    requires forall i :: 0 <= i < |s| - 2 ==> !(IsA(s[i]) && IsP(s[i + 1]) && IsP(s[i + 2]))
    ensures VersionKey(s) == s
    decreases |s|
  {
    if s != [] {
      var t := s[1..];
      assert forall i :: 0 <= i < |t| ==> t[i] == s[i + 1];
      VersionKeyPlain(t);
    }
  }

  /** The characters of `s` other than '.', in order. */
  function DropDots(s: string): string {
    if s == [] then [] else (if s[0] == '.' then [] else [s[0]]) + DropDots(s[1..])
  }

  /** For a release directory `app-4.33.73` the key is the version's digits run together. */
  lemma {:induction false} VersionKeyOfRelease(v: string)
    requires forall i :: 0 <= i < |v| ==> IsDigit(v[i]) || v[i] == '.'
    ensures VersionKey("app-" + v) == DropDots(v)
  {
    assert ("app-" + v)[3..] == "-" + v;
    assert ("-" + v)[1..] == v;
    DigitsAndDots(v);
  }

  lemma {:induction false} DigitsAndDots(v: string)
    requires forall i :: 0 <= i < |v| ==> IsDigit(v[i]) || v[i] == '.'
    ensures VersionKey(v) == DropDots(v)
    decreases |v|
  {
    if v != [] {
      assert forall i :: 0 <= i < |v| - 1 ==> v[1..][i] == v[i + 1];
      DigitsAndDots(v[1..]);
      assert !IsA(v[0]);
    }
  }

  /** `readdirSync(slackDir).filter(dir => dir.startsWith('app-'))` */
  function AppDirs(dirs: seq<string>): (r: seq<string>)
    ensures forall d :: d in r <==> d in dirs && StartsWith(d, "app-")
  {
    if dirs == [] then []
    else (if StartsWith(dirs[0], "app-") then [dirs[0]] else []) + AppDirs(dirs[1..])
  }

  /** The filter keeps the listing order: filtering two listings in turn is filtering their concatenation. */
  lemma {:induction false} AppDirsAppend(a: seq<string>, b: seq<string>)
    ensures AppDirs(a + b) == AppDirs(a) + AppDirs(b)
    decreases |a|
  {
    if a == [] {
      assert a + b == b;
    } else {
      assert (a + b)[0] == a[0] && (a + b)[1..] == a[1..] + b;
      AppDirsAppend(a[1..], b);
    }
  }

  /** The assignments `versions[version] = subDir` of the loop, in order. */
  function Assignments(subDirs: seq<string>): (ps: seq<(string, string)>)
    ensures |ps| == |subDirs|
    ensures forall i :: 0 <= i < |ps| ==> ps[i] == (VersionKey(subDirs[i]), subDirs[i])
  {
    seq(|subDirs|, i requires 0 <= i < |subDirs| => (VersionKey(subDirs[i]), subDirs[i]))
  }

  /** The `versions` object after the loop. */
  function Versions(dirs: seq<string>): (v: Dict<string>)
    ensures v.Valid()
  {
    PutAll(Empty(), Assignments(AppDirs(dirs)))
  }

  /** `Object.keys(versions).map(Number)` */
  function Numbers(keys: seq<string>): (xs: seq<Number>)
    ensures |xs| == |keys|
    ensures forall i :: 0 <= i < |xs| ==> xs[i] == ToNumber(keys[i])
  {
    seq(|keys|, i requires 0 <= i < |keys| => ToNumber(keys[i]))
  }

  /** `latestVersion` */
  function Latest(dirs: seq<string>): Number {
    Max(Numbers(Versions(dirs).keys))
  }

  /** The specification of `getSlackLocation`, step by step as the source computes it. */
  function SlackLocation(appDataSet: bool, slackDirExists: bool, dirs: seq<string>, exeExists: string -> bool): Location {
    if !appDataSet then Threw
    else if !slackDirExists then NotFound
    else
      var latest := Latest(dirs);
      if Falsy(latest) then NotFound
      else match Versions(dirs).Get(Key(latest))
        case None => Threw
        case Some(d) => if exeExists(d) then Found(d) else NotFound
  }

  /** `Utils.getSlackLocation`, with the `for` loop that fills `versions`. */
  method GetSlackLocation(appDataSet: bool, slackDirExists: bool, dirs: seq<string>, exeExists: string -> bool)
    returns (r: Location)
    ensures r == SlackLocation(appDataSet, slackDirExists, dirs, exeExists)
  {
    if !appDataSet {
      return Threw;
    }
    if !slackDirExists {
      return NotFound;
    }
    var subDirs := AppDirs(dirs);
    var versions: Dict<string> := Empty();
    for i := 0 to |subDirs|
      invariant versions.Valid()
      invariant PutAll(versions, Assignments(subDirs)[i..]) == Versions(dirs)
    {
      var version := VersionKey(subDirs[i]);
      PutAllFrom(versions, Assignments(subDirs), i);
      versions := Put(versions, version, subDirs[i]);
    }
    var latestVersion := Max(Numbers(versions.keys));
    if Falsy(latestVersion) {
      return NotFound;
    }
    match versions.Get(Key(latestVersion))
    case None =>
      r := Threw;
    case Some(d) =>
      r := if exeExists(d) then Found(d) else NotFound;
  }

  /** The key of every app directory other than `__proto__` is a key of `versions`, and nothing else is. */
  lemma VersionsKeys(dirs: seq<string>, k: string)
    ensures k in Versions(dirs).values <==>
      k != ProtoKey && exists i :: 0 <= i < |AppDirs(dirs)| && VersionKey(AppDirs(dirs)[i]) == k
  {
    var subDirs := AppDirs(dirs);
    var ps := Assignments(subDirs);
    PutAllMember(Empty(), ps, k);
    if k in Versions(dirs).values {
      var i :| 0 <= i < |ps| && ps[i].0 == k;
      assert VersionKey(subDirs[i]) == k;
    }
    if i :| 0 <= i < |subDirs| && VersionKey(subDirs[i]) == k {
      assert ps[i].0 == k;
      assert exists j :: 0 <= j < |AppDirs(dirs)| && VersionKey(AppDirs(dirs)[j]) == k;
    }
  }

  /** Some directory with key `k` is not followed by another with the same key. */
  lemma {:induction false} LastWithKey(subDirs: seq<string>, i: nat) returns (j: nat)
    requires i < |subDirs|
    ensures i <= j < |subDirs| && VersionKey(subDirs[j]) == VersionKey(subDirs[i])
    ensures forall l :: j < l < |subDirs| ==> VersionKey(subDirs[l]) != VersionKey(subDirs[i])
    decreases |subDirs| - i
  {
    if l :| i < l < |subDirs| && VersionKey(subDirs[l]) == VersionKey(subDirs[i]) {
      j := LastWithKey(subDirs, l);
    } else {
      j := i;
    }
  }

  /** The `i`-th app directory's key is an own key of `versions`: it is not `__proto__`. */
  predicate Stored(dirs: seq<string>, i: int) {
    0 <= i < |AppDirs(dirs)| && VersionKey(AppDirs(dirs)[i]) != ProtoKey
  }

  /** Where an app directory's key sits in `Object.keys(versions)`. */
  lemma KeyIndex(dirs: seq<string>, i: nat) returns (t: nat)
    requires Stored(dirs, i)
    ensures t < |Versions(dirs).keys| && Versions(dirs).keys[t] == VersionKey(AppDirs(dirs)[i])
  {
    VersionsKeys(dirs, VersionKey(AppDirs(dirs)[i]));
    assert VersionKey(AppDirs(dirs)[i]) in Versions(dirs).values;
    t :| 0 <= t < |Versions(dirs).keys| && Versions(dirs).keys[t] == VersionKey(AppDirs(dirs)[i]);
  }

  /** An app directory whose key is the `t`-th of `Object.keys(versions)`. */
  lemma DirIndex(dirs: seq<string>, t: nat) returns (i: nat)
    requires t < |Versions(dirs).keys|
    ensures Stored(dirs, i) && VersionKey(AppDirs(dirs)[i]) == Versions(dirs).keys[t]
  {
    assert Versions(dirs).keys[t] in Versions(dirs).values;
    VersionsKeys(dirs, Versions(dirs).keys[t]);
    i :| 0 <= i < |AppDirs(dirs)| && VersionKey(AppDirs(dirs)[i]) == Versions(dirs).keys[t];
  }

  /** Every stored app directory's version key is a number no larger than `m`. */
  ghost predicate NoNewerThan(dirs: seq<string>, m: nat)
  {
    forall i :: Stored(dirs, i) ==> DirNumber(dirs, i).Finite? && DirNumber(dirs, i).n <= m
  }

  /** The version number of the `i`-th app directory. */
  function DirNumber(dirs: seq<string>, i: nat): Number
    requires i < |AppDirs(dirs)|
  {
    ToNumber(VersionKey(AppDirs(dirs)[i]))
  }

  /**
   * `Math.max` over the keys of `versions`, in terms of the stored app directories:
   * -Infinity exactly when there is none, NaN exactly when one of them has a
   * non-numeric key, and otherwise the largest version number among them.
   */
  lemma LatestVersion(dirs: seq<string>)
    ensures Latest(dirs) == NegInfinity <==> forall i :: !Stored(dirs, i)
    ensures Latest(dirs) == NaN <==> exists i :: Stored(dirs, i) && DirNumber(dirs, i) == NaN
    ensures Latest(dirs).Finite? ==>
      (exists i :: Stored(dirs, i) && DirNumber(dirs, i) == Latest(dirs)) && NoNewerThan(dirs, Latest(dirs).n)
  {
    var xs := Numbers(Versions(dirs).keys);
    DirNumbersListed(dirs);
    if |xs| > 0 {
      var i := ListedDirNumber(dirs, 0);
    }
    if Latest(dirs) == NaN {
      var t :| 0 <= t < |xs| && xs[t] == NaN;
      var i := ListedDirNumber(dirs, t);
    }
    if Latest(dirs).Finite? {
      var t :| 0 <= t < |xs| && xs[t] == Latest(dirs);
      var i := ListedDirNumber(dirs, t);
    }
  }

  /** Every stored app directory's number is among those `Math.max` is given. */
  lemma DirNumbersListed(dirs: seq<string>)
    ensures forall i :: Stored(dirs, i) ==> DirNumber(dirs, i) in Numbers(Versions(dirs).keys)
  {
    forall i | Stored(dirs, i)
      ensures DirNumber(dirs, i) in Numbers(Versions(dirs).keys)
    {
      var t := KeyIndex(dirs, i);
      assert Numbers(Versions(dirs).keys)[t] == DirNumber(dirs, i);
    }
  }

  /** Every number `Math.max` is given is some app directory's number. */
  lemma ListedDirNumber(dirs: seq<string>, t: nat) returns (i: nat)
    requires t < |Versions(dirs).keys|
    ensures Stored(dirs, i) && DirNumber(dirs, i) == Numbers(Versions(dirs).keys)[t]
  {
    i := DirIndex(dirs, t);
  }

  /**
   * `versions[k]` for a key some app directory has: the last app directory listed with
   * that key.
   */
  lemma {:induction false} Lookup(dirs: seq<string>, k: string, d: string) returns (j: nat)
    requires Versions(dirs).Get(k) == Some(d)
    ensures VersionKey(d) == k
    ensures j < |AppDirs(dirs)| && AppDirs(dirs)[j] == d
    ensures forall j' :: j < j' < |AppDirs(dirs)| ==> VersionKey(AppDirs(dirs)[j']) != k
  {
    VersionsKeys(dirs, k);
    var i :| 0 <= i < |AppDirs(dirs)| && VersionKey(AppDirs(dirs)[i]) == k;
    j := LastWithKey(AppDirs(dirs), i);
    PutAllLast(Empty(), Assignments(AppDirs(dirs)), k, j);
  }

  /**
   * What a found install is: an existing `slack.exe` in an app directory that was listed,
   * whose version key is a positive number no smaller than any other app directory's,
   * written without leading zeros, and which is the last app directory listed with that
   * key (a later directory with the same key replaces an earlier one).
   */
  lemma LocationFound(appDataSet: bool, slackDirExists: bool, dirs: seq<string>, exeExists: string -> bool, d: string) returns (i: nat)
    requires SlackLocation(appDataSet, slackDirExists, dirs, exeExists) == Found(d)
    ensures appDataSet && slackDirExists && exeExists(d)
    ensures d in dirs && StartsWith(d, "app-")
    ensures Canonical(VersionKey(d)) && ToNumber(VersionKey(d)).Finite? && ToNumber(VersionKey(d)).n > 0
    ensures NoNewerThan(dirs, ToNumber(VersionKey(d)).n)
    ensures i < |AppDirs(dirs)| && AppDirs(dirs)[i] == d
    ensures forall j :: i < j < |AppDirs(dirs)| ==> VersionKey(AppDirs(dirs)[j]) != VersionKey(d)
  {
    var n := FoundAtLatest(appDataSet, slackDirExists, dirs, exeExists, d);
    i := SelectedNewest(dirs, n, d);
  }

  /** A found install is the entry of `versions` under the largest version number. */
  lemma FoundAtLatest(appDataSet: bool, slackDirExists: bool, dirs: seq<string>, exeExists: string -> bool, d: string) returns (n: nat)
    requires SlackLocation(appDataSet, slackDirExists, dirs, exeExists) == Found(d)
    ensures appDataSet && slackDirExists && exeExists(d)
    ensures Latest(dirs) == Finite(n) && n > 0
    ensures Versions(dirs).Get(Decimal(n)) == Some(d)
  {
    if Latest(dirs) == NegInfinity {
      VersionsKeys(dirs, "-Infinity");
    }
    n := Latest(dirs).n;
  }

  lemma SelectedNewest(dirs: seq<string>, n: nat, d: string) returns (i: nat)
    requires Latest(dirs) == Finite(n) && n > 0
    requires Versions(dirs).Get(Decimal(n)) == Some(d)
    ensures d in dirs && StartsWith(d, "app-")
    ensures Canonical(VersionKey(d)) && ToNumber(VersionKey(d)) == Finite(n)
    ensures NoNewerThan(dirs, n)
    ensures i < |AppDirs(dirs)| && AppDirs(dirs)[i] == d
    ensures forall j :: i < j < |AppDirs(dirs)| ==> VersionKey(AppDirs(dirs)[j]) != VersionKey(d)
  {
    LatestVersion(dirs);
    i := Lookup(dirs, Decimal(n), d);
    DecimalRoundTrip(n);
    CanonicalNotProto(VersionKey(d));
  }

  /**
   * The `null` returns, once `LOCALAPPDATA` is set: no slack directory, a largest
   * version key of NaN, or one of 0; and, when the call does not throw, no listed
   * directory holding a `slack.exe`.
   */
  lemma LocationNotFound(appDataSet: bool, slackDirExists: bool, dirs: seq<string>, exeExists: string -> bool)
    ensures appDataSet && !slackDirExists ==> SlackLocation(appDataSet, slackDirExists, dirs, exeExists) == NotFound
    ensures appDataSet && (exists i :: Stored(dirs, i) && DirNumber(dirs, i) == NaN) ==>
      SlackLocation(appDataSet, slackDirExists, dirs, exeExists) == NotFound
    ensures appDataSet && (exists i :: Stored(dirs, i)) && (forall i :: Stored(dirs, i) ==> DirNumber(dirs, i) == Finite(0)) ==>
      SlackLocation(appDataSet, slackDirExists, dirs, exeExists) == NotFound
    ensures SlackLocation(appDataSet, slackDirExists, dirs, exeExists) != Threw && (forall d :: d in dirs ==> !exeExists(d)) ==>
      SlackLocation(appDataSet, slackDirExists, dirs, exeExists) == NotFound
  {
    LatestVersion(dirs);
    if SlackLocation(appDataSet, slackDirExists, dirs, exeExists).Found? {
      var i := LocationFound(appDataSet, slackDirExists, dirs, exeExists, SlackLocation(appDataSet, slackDirExists, dirs, exeExists).installDir);
    }
  }

  /**
   * When the call throws: `LOCALAPPDATA` is unset, or the slack directory exists and
   * either stores no app directory at all (`Math.max()` is -Infinity, which is truthy)
   * or the largest version key is written with a leading zero, so
   * `versions[latestVersion]` misses.
   */
  lemma LocationThrew(appDataSet: bool, slackDirExists: bool, dirs: seq<string>, exeExists: string -> bool)
    ensures !appDataSet ==> SlackLocation(appDataSet, slackDirExists, dirs, exeExists) == Threw
    ensures slackDirExists && (forall i :: !Stored(dirs, i)) ==> SlackLocation(appDataSet, slackDirExists, dirs, exeExists) == Threw
    ensures SlackLocation(appDataSet, slackDirExists, dirs, exeExists) == Threw ==>
      !appDataSet || (slackDirExists && ((forall i :: !Stored(dirs, i)) || exists i :: Stored(dirs, i) && LeadingZero(VersionKey(AppDirs(dirs)[i]))))
  {
    LatestVersion(dirs);
    if appDataSet && (exists i :: Stored(dirs, i)) && SlackLocation(appDataSet, slackDirExists, dirs, exeExists) == Threw {
      var i := ThrewAt(appDataSet, slackDirExists, dirs, exeExists);
    }
  }

  /**
   * With `LOCALAPPDATA` set and app directories stored, a throw points at an app
   * directory whose key is the largest version number, which is positive, but is
   * written with a leading zero.
   */
  lemma ThrewAt(appDataSet: bool, slackDirExists: bool, dirs: seq<string>, exeExists: string -> bool) returns (i: nat)
    requires appDataSet && (exists j :: Stored(dirs, j)) && SlackLocation(appDataSet, slackDirExists, dirs, exeExists) == Threw
    ensures Stored(dirs, i) && DirNumber(dirs, i) == Latest(dirs) && !Canonical(VersionKey(AppDirs(dirs)[i]))
    ensures Latest(dirs).Finite? && Latest(dirs).n > 0 && LeadingZero(VersionKey(AppDirs(dirs)[i]))
  {
    LatestVersion(dirs);
    i :| Stored(dirs, i) && DirNumber(dirs, i) == Latest(dirs);
    if Canonical(VersionKey(AppDirs(dirs)[i])) {
      LatestPresent(dirs, i);
      assert false;
    }
    assert VersionKey(AppDirs(dirs)[i]) != [];
  }

  /** A largest version key written without leading zeros is found again by `String(latestVersion)`. */
  lemma LatestPresent(dirs: seq<string>, i: nat)
    requires i < |AppDirs(dirs)| && DirNumber(dirs, i) == Latest(dirs) && Latest(dirs).Finite?
    requires Canonical(VersionKey(AppDirs(dirs)[i]))
    ensures Versions(dirs).Get(Key(Latest(dirs))).Some?
  {
    NumeralRoundTrip(VersionKey(AppDirs(dirs)[i]));
    CanonicalNotProto(VersionKey(AppDirs(dirs)[i]));
    VersionsKeys(dirs, VersionKey(AppDirs(dirs)[i]));
  }

  /** A numeral is never the key `__proto__`. */
  lemma CanonicalNotProto(s: string)
    requires Canonical(s)
    ensures s != ProtoKey
  {
    assert !IsDigit(ProtoKey[0]);
  }

  /** The release an install directory `app-<version>` holds, if its name spells one. */
  function ReleaseOf(d: string): Option<seq<nat>> {
    if StartsWith(d, "app-") then ParseVersion(d[4..]) else None
  }

  /**
   * The directory holding the newest release among `subDirs`, the later one among
   * directories with equal releases, skipping names that spell no release.
   */
  function Newest(subDirs: seq<string>): (r: Option<string>)
    ensures r.Some? ==> r.value in subDirs && ReleaseOf(r.value).Some?
    ensures r.None? <==> forall i :: 0 <= i < |subDirs| ==> ReleaseOf(subDirs[i]).None?
    decreases |subDirs|
  {
    if subDirs == [] then None
    else
      var prefix, last := subDirs[..|subDirs| - 1], subDirs[|subDirs| - 1];
      assert forall i :: 0 <= i < |prefix| ==> prefix[i] == subDirs[i];
      var best := Newest(prefix);
      match ReleaseOf(last)
      case None => best
      case Some(v) =>
        if best.Some? && Older(v, ReleaseOf(best.value).value) then best else Some(last)
  }

  /** No directory in `subDirs` holds a newer release than the one `Newest` picks. */
  lemma {:induction false} NewestIsNewest(subDirs: seq<string>)
    requires Newest(subDirs).Some?
    ensures forall i :: 0 <= i < |subDirs| && ReleaseOf(subDirs[i]).Some? ==>
      !Older(ReleaseOf(Newest(subDirs).value).value, ReleaseOf(subDirs[i]).value)
    decreases |subDirs|
  {
    var prefix, last := subDirs[..|subDirs| - 1], subDirs[|subDirs| - 1];
    var best := Newest(prefix);
    var top := ReleaseOf(Newest(subDirs).value).value;
    if best.Some? {
      NewestIsNewest(prefix);
    }
    forall i | 0 <= i < |subDirs| && ReleaseOf(subDirs[i]).Some?
      ensures !Older(top, ReleaseOf(subDirs[i]).value)
    {
      var w := ReleaseOf(subDirs[i]).value;
      if i == |subDirs| - 1 {
        if Newest(subDirs) == Some(last) {
          OlderIrreflexive(w);
        } else {
          OlderAsymmetric(w, top);
        }
      } else {
        assert prefix[i] == subDirs[i];
        if Newest(subDirs) != best {
          var bv := ReleaseOf(best.value).value;
          if Older(top, w) {
            OlderTotal(bv, w);
            if Older(w, bv) {
              OlderTransitive(top, w, bv);
            }
          }
        }
      }
    }
  }

  /**
   * The corrected `getSlackLocation`: the newest release by version order, `null`
   * (`NotFound`) when the slack directory holds no release directory at all.
   */
  function LocateLatest(appDataSet: bool, slackDirExists: bool, dirs: seq<string>, exeExists: string -> bool): Location {
    if !appDataSet then Threw
    else if !slackDirExists then NotFound
    else match Newest(AppDirs(dirs))
      case None => NotFound
      case Some(d) => if exeExists(d) then Found(d) else NotFound
  }

  /** A found install is an existing `slack.exe` in a release directory no other release is newer than. */
  lemma LocateLatestFound(appDataSet: bool, slackDirExists: bool, dirs: seq<string>, exeExists: string -> bool, d: string)
    requires LocateLatest(appDataSet, slackDirExists, dirs, exeExists) == Found(d)
    ensures appDataSet && slackDirExists && exeExists(d)
    ensures d in dirs && ReleaseOf(d).Some?
    ensures forall e :: e in dirs && ReleaseOf(e).Some? ==> !Older(ReleaseOf(d).value, ReleaseOf(e).value)
  {
    var subDirs := AppDirs(dirs);
    NewestIsNewest(subDirs);
    forall e | e in dirs && ReleaseOf(e).Some?
      ensures !Older(ReleaseOf(d).value, ReleaseOf(e).value)
    {
      assert e in subDirs;
      var i :| 0 <= i < |subDirs| && subDirs[i] == e;
    }
  }

  /**
   * The corrected locator throws only for an unset `LOCALAPPDATA`: without a slack
   * directory, or without any directory naming a release, there is no install to find.
   */
  lemma LocateLatestNotFound(appDataSet: bool, slackDirExists: bool, dirs: seq<string>, exeExists: string -> bool)
    ensures LocateLatest(appDataSet, slackDirExists, dirs, exeExists) == Threw <==> !appDataSet
    ensures appDataSet && !slackDirExists ==> LocateLatest(appDataSet, slackDirExists, dirs, exeExists) == NotFound
    ensures appDataSet && (forall e :: e in dirs ==> ReleaseOf(e).None?) ==> LocateLatest(appDataSet, slackDirExists, dirs, exeExists) == NotFound
  {
    if appDataSet && slackDirExists && forall e :: e in dirs ==> ReleaseOf(e).None? {
      var subDirs := AppDirs(dirs);
      forall i | 0 <= i < |subDirs|
        ensures ReleaseOf(subDirs[i]).None?
      {
        assert subDirs[i] in dirs;
      }
    }
  }

  /**
   * Running the version digits together does not preserve release order: 4.9.10
   * becomes 4910 and beats 4.10.0, which becomes 4100.
   */
  lemma ConcatenatedDigitsMisorder()
    ensures SlackLocation(true, true, ["app-4.9.10", "app-4.10.0"], d => true) == Found("app-4.9.10")
  {
    var dirs := ["app-4.9.10", "app-4.10.0"];
    ExampleAppDirs();
    ExampleKeys();
    ExampleVersions();
    ExampleLatest();
    ExampleDecimal();
    FoundLatest(dirs, d => true, 4910, "app-4.9.10");
  }

  lemma FoundLatest(dirs: seq<string>, exeExists: string -> bool, n: nat, d: string)
    requires Latest(dirs) == Finite(n) && n > 0
    requires Versions(dirs).Get(Decimal(n)) == Some(d) && exeExists(d)
    ensures SlackLocation(true, true, dirs, exeExists) == Found(d)
  {
  }

  lemma ExampleLatest()
    ensures Latest(["app-4.9.10", "app-4.10.0"]) == Finite(4910)
  {
    ExampleAppDirs();
    ExampleKeys();
    ExampleVersions();
    ExampleNumbers();
    ExampleMax();
  }

  lemma ExampleNumbers()
    ensures Numbers(["4910", "4100"]) == [Finite(4910), Finite(4100)]
  {
    ExampleNumberOlder();
    ExampleNumberNewer();
  }

  lemma ExampleMax()
    ensures Max([Finite(4910), Finite(4100)]) == Finite(4910)
  {
    assert [Finite(4910), Finite(4100)][1..] == [Finite(4100)];
    assert Max([Finite(4100)]) == Max2(Finite(4100), Max([]));
  }

  lemma ExampleAppDirs()
    ensures AppDirs(["app-4.9.10", "app-4.10.0"]) == ["app-4.9.10", "app-4.10.0"]
  {
    assert StartsWith("app-4.9.10", "app-") && StartsWith("app-4.10.0", "app-");
    assert ["app-4.9.10", "app-4.10.0"][1..] == ["app-4.10.0"];
  }

  lemma ExampleKeys()
    ensures VersionKey("app-4.9.10") == "4910" && VersionKey("app-4.10.0") == "4100"
  {
    ExampleKeyOlder();
    ExampleKeyNewer();
  }

  lemma ExampleKeyOlder()
    ensures VersionKey("app-4.9.10") == "4910"
  {
    VersionKeyOfRelease("4.9.10");
    assert "app-" + "4.9.10" == "app-4.9.10";
  }

  lemma ExampleKeyNewer()
    ensures VersionKey("app-4.10.0") == "4100"
  {
    VersionKeyOfRelease("4.10.0");
    assert "app-" + "4.10.0" == "app-4.10.0";
  }

  lemma ExampleVersions()
    requires AppDirs(["app-4.9.10", "app-4.10.0"]) == ["app-4.9.10", "app-4.10.0"]
    requires VersionKey("app-4.9.10") == "4910" && VersionKey("app-4.10.0") == "4100"
    ensures Versions(["app-4.9.10", "app-4.10.0"]).keys == ["4910", "4100"]
    ensures Versions(["app-4.9.10", "app-4.10.0"]).Get("4910") == Some("app-4.9.10")
  {
    var ps := Assignments(["app-4.9.10", "app-4.10.0"]);
    assert ps == [("4910", "app-4.9.10"), ("4100", "app-4.10.0")];
    assert ps[1..][1..] == [];
  }

  lemma ExampleNumberOlder()
    ensures ToNumber("4910") == Finite(4910)
  {
    assert "4910"[..3] == "491" && "491"[..2] == "49" && "49"[..1] == "4" && "4"[..0] == "";
  }

  lemma ExampleDecimal()
    ensures Decimal(4910) == "4910"
  {
    ExampleNumberOlder();
    NumeralRoundTrip("4910");
  }

  lemma ExampleNumberNewer()
    ensures ToNumber("4100") == Finite(4100)
  {
    assert "4100"[..3] == "410" && "410"[..2] == "41" && "41"[..1] == "4" && "4"[..0] == "";
  }

  /**
   * `app-__proto__` has the key `__proto__`, and assigning a string to that key of a
   * plain object stores nothing: a slack directory holding only this app directory
   * leaves `versions` empty, `Math.max()` is -Infinity and the lookup throws.
   */
  lemma ProtoDirThrows()
    ensures VersionKey("app-__proto__") == ProtoKey
    ensures SlackLocation(true, true, ["app-__proto__"], d => true) == Threw
  {
    var dirs := ["app-__proto__"];
    ProtoDirKey();
    ProtoDirListed();
    assert !Stored(dirs, 0);
    LocationThrew(true, true, dirs, d => true);
  }

  lemma ProtoDirKey()
    ensures VersionKey("app-__proto__") == ProtoKey
  {
    assert "app-__proto__" == "app" + ("-" + ProtoKey);
    VersionKeyDropsApp("app", "-" + ProtoKey);
    assert ("-" + ProtoKey)[1..] == ProtoKey;
    ProtoKeyPlain();
  }

  lemma ProtoKeyPlain()
    ensures VersionKey(ProtoKey) == ProtoKey
  {
    forall i | 0 <= i < |ProtoKey| - 2
      ensures !(IsA(ProtoKey[i]) && IsP(ProtoKey[i + 1]) && IsP(ProtoKey[i + 2]))
    {
      assert ProtoKey[i] != 'a' && ProtoKey[i] != 'A';
    }
    VersionKeyPlain(ProtoKey);
  }

  lemma ProtoDirListed()
    ensures AppDirs(["app-__proto__"]) == ["app-__proto__"]
  {
    assert StartsWith("app-__proto__", "app-");
    assert ["app-__proto__"][1..] == [];
  }

  /** The corrected locator picks 4.10.0 over 4.9.10. */
  lemma ReleaseOrderKept()
    ensures LocateLatest(true, true, ["app-4.9.10", "app-4.10.0"], d => true) == Found("app-4.10.0")
  {
    var dirs := ["app-4.9.10", "app-4.10.0"];
    ExampleAppDirs();
    ExampleReleaseOlder();
    ExampleReleaseNewer();
    assert dirs[..1] == ["app-4.9.10"];
    assert Newest(["app-4.9.10"]) == Some("app-4.9.10");
    assert Older([4, 9, 10], [4, 10, 0]);
    assert Newest(dirs) == Some("app-4.10.0");
  }

  lemma ExampleReleaseOlder()
    ensures ReleaseOf("app-4.9.10") == Some([4, 9, 10])
  {
    FormatParse([4, 9, 10]);
    ExampleFormatOlder();
    assert "app-4.9.10"[4..] == "4.9.10";
  }

  lemma ExampleFormatOlder()
    ensures FormatVersion([4, 9, 10]) == "4.9.10"
  {
    assert Decimal(10) == "10";
    JoinThree(Decimal(4), Decimal(9), Decimal(10));
    assert seq(3, i requires 0 <= i < 3 => Decimal([4, 9, 10][i])) == [Decimal(4), Decimal(9), Decimal(10)];
  }

  lemma ExampleReleaseNewer()
    ensures ReleaseOf("app-4.10.0") == Some([4, 10, 0])
  {
    FormatParse([4, 10, 0]);
    ExampleFormatNewer();
    assert "app-4.10.0"[4..] == "4.10.0";
  }

  lemma ExampleFormatNewer()
    ensures FormatVersion([4, 10, 0]) == "4.10.0"
  {
    assert Decimal(10) == "10";
    JoinThree(Decimal(4), Decimal(10), Decimal(0));
    assert seq(3, i requires 0 <= i < 3 => Decimal([4, 10, 0][i])) == [Decimal(4), Decimal(10), Decimal(0)];
  }

  lemma JoinThree(a: string, b: string, c: string)
    ensures JoinDots([a, b, c]) == a + "." + b + "." + c
  {
    assert [a, b, c][1..] == [b, c] && [b, c][1..] == [c];
    assert JoinDots([b, c]) == b + "." + c;
    assert JoinDots([a, b, c]) == a + "." + (b + "." + c);
  }
}
