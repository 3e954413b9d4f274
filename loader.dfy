/** `load_argo_data` (lines 65-99): every profile of every file, in file
    order and then in profile-index order, becomes one record, except the
    profiles whose JULD is exactly the fill value 999999.0. A file is an
    already opened dataset: the per-profile values the loop reads, as
    stored in the file (no CF decoding of times, fill values or
    characters). */
module Loader {
  import opened Wrappers
  import opened Floats
  import Masks
  import Julian
  import CharArrays

  /** Profile i of a dataset: the i-th entries along N_PROF of the
      variables the loop reads. */
  datatype RawProfile = RawProfile(
    juld: Double,
    latitude: Double,
    longitude: Double,
    platformNumber: CharArrays.CharArray,
    cycleNumber: int,
    temp: seq<Double>,
    pres: seq<Double>,
    psal: seq<Double>)

  /** A dataset is its N_PROF profiles, in index order. */
  type Dataset = seq<RawProfile>

  /** One row of the returned DataFrame (lines 88-97). */
  datatype ProfileRecord = ProfileRecord(
    platform: string,
    cycle: int,
    timeUtc: Option<Julian.Instant>,
    lat: Double,
    lon: Double,
    temp: seq<Double>,
    pres: seq<Double>,
    psal: seq<Double>)

  /** Line 72: a profile whose JULD equals 999999.0 is skipped. */
  predicate Kept(p: RawProfile) {
    !Eq(p.juld, JuldFillValue)
  }

  /** Lines 92-93: `float(x) if x != 99999.0 else np.nan`. */
  function Coordinate(x: Double): (c: Double)
    ensures c.NaN? <==> Eq(x, FillValue) || x.NaN?
    ensures !Eq(x, FillValue) ==> c == x
  {
    if Eq(x, FillValue) then NaN else x
  }

  /** The record of a kept profile, given what `julian_to_datetime` returned
      for its JULD (lines 75-97): the time is decoded first, then the
      platform number, and the first of the two to raise aborts the load. */
  function MakeRecord(p: RawProfile, time: Result<Julian.Decoded>): Result<ProfileRecord>
    requires time.Ok? ==> time.value.Single?
  {
    match time
    case Err(e) => Err(e)
    case Ok(decoded) =>
      match CharArrays.DecodeCharArray(p.platformNumber)
      case Err(e) => Err(e)
      case Ok(platform) =>
        Ok(ProfileRecord(platform, p.cycleNumber, decoded.t, Coordinate(p.latitude),
                         Coordinate(p.longitude), p.temp, p.pres, p.psal))
  }

  /** A kept profile's record, with `ds["JULD"][i].values` (a 0-d array)
      decoded as a scalar. */
  function BuildRecord(p: RawProfile): (r: Result<ProfileRecord>)
    ensures r.Err? ==> r.error == OverflowError || r.error == UnicodeDecodeError
  {
    Julian.ScalarIsSoleElement(p.juld);
    Julian.ZeroDimRejectedAsWritten(p.juld);
    MakeRecord(p, Julian.Decode(Julian.ZeroDim(p.juld)))
  }

  /** A kept profile's record as the code is written, with the variables
      read as stored (no CF decoding): the 0-d float JULD array makes
      `julian_to_datetime` raise. */
  function BuildRecordAsWritten(p: RawProfile): (r: Result<ProfileRecord>)
    ensures r == Err(TypeError)
  {
    Julian.ZeroDimRejectedAsWritten(p.juld);
    MakeRecord(p, Julian.DecodeAsWritten(Julian.ZeroDim(p.juld)))
  }

  /** All profiles of all files: file order, then index order. */
  function Flatten(files: seq<Dataset>): seq<RawProfile> {
    if |files| == 0 then [] else Flatten(files[..|files| - 1]) + files[|files| - 1]
  }

  /** The number of profiles over all files (the sum of their N_PROF). */
  function TotalProfiles(files: seq<Dataset>): nat {
    if |files| == 0 then 0 else TotalProfiles(files[..|files| - 1]) + |files[|files| - 1]|
  }

  /** Builds the records of a sequence of profiles in order; the first
      profile whose record raises aborts with that exception. */
  function BuildAll(ps: seq<RawProfile>, build: RawProfile -> Result<ProfileRecord>): (r: Result<seq<ProfileRecord>>)
    ensures r.Ok? <==> forall i :: 0 <= i < |ps| ==> build(ps[i]).Ok?
    ensures r.Ok? ==> |r.value| == |ps| && forall i :: 0 <= i < |ps| ==> r.value[i] == build(ps[i]).value
    ensures r.Err? ==> exists i :: (0 <= i < |ps| && build(ps[i]) == Err(r.error) &&
      forall j :: 0 <= j < i ==> build(ps[j]).Ok?)
  {
    if |ps| == 0 then Ok([])
    else
      match build(ps[0])
      case Err(e) => Err(e)
      case Ok(rec) =>
        match BuildAll(ps[1..], build)
        case Err(e) =>
          assert forall i :: 1 <= i < |ps| ==> ps[i] == ps[1..][i - 1];
          Err(e)
        case Ok(recs) => Ok([rec] + recs)
  }

  /** The profiles that survive the skip at line 72, in order. */
  function Survivors(files: seq<Dataset>): (ps: seq<RawProfile>)
    ensures |ps| <= TotalProfiles(files)
    ensures forall k :: 0 <= k < |ps| ==> Kept(ps[k])
  {
    FlattenLength(files);
    Masks.FilterExactly(Flatten(files), Kept);
    Masks.Filter(Flatten(files), Kept)
  }

  /** The records the loader returns: every surviving profile built in
      order. */
  function Load(files: seq<Dataset>): (r: Result<seq<ProfileRecord>>)
    ensures r.Ok? ==> |r.value| == |Survivors(files)| <= TotalProfiles(files)
    ensures r.Err? ==> r.error == OverflowError || r.error == UnicodeDecodeError
  {
    FlattenLength(files);
    Masks.FilterExactly(Flatten(files), Kept);
    BuildAll(Survivors(files), BuildRecord)
  }

  /** The records the loader returns as the code is written. */
  function LoadAsWritten(files: seq<Dataset>): (r: Result<seq<ProfileRecord>>)
    ensures r.Ok? ==> r.value == []
    ensures r.Err? ==> r.error == TypeError
  {
    BuildAll(Survivors(files), BuildRecordAsWritten)
  }

  /** Flattening distributes over concatenation of file lists. */
  lemma {:induction false} FlattenAppend(a: seq<Dataset>, b: seq<Dataset>)
    ensures Flatten(a + b) == Flatten(a) + Flatten(b)
  {
    if |b| > 0 {
      var n := |b| - 1;
      assert (a + b)[..|a + b| - 1] == a + b[..n];
      FlattenAppend(a, b[..n]);
    } else {
      assert a + b == a;
    }
  }

  /** Building distributes over concatenation: the records of xs, then
      those of ys, unless one of them raises first. */
  lemma {:induction false} BuildAllAppend(xs: seq<RawProfile>, ys: seq<RawProfile>, build: RawProfile -> Result<ProfileRecord>)
    ensures BuildAll(xs + ys, build) ==
      match BuildAll(xs, build)
      case Err(e) => Err(e)
      case Ok(a) =>
        match BuildAll(ys, build)
        case Err(e) => Err(e)
        case Ok(b) => Ok(a + b)
  {
    if |xs| > 0 {
      assert (xs + ys)[1..] == xs[1..] + ys;
      assert (xs + ys)[0] == xs[0];
      BuildAllAppend(xs[1..], ys, build);
      if build(xs[0]).Ok? && BuildAll(xs[1..], build).Ok? && BuildAll(ys, build).Ok? {
        var h, a, b := build(xs[0]).value, BuildAll(xs[1..], build).value, BuildAll(ys, build).value;
        assert [h] + (a + b) == ([h] + a) + b;
      }
    } else {
      assert xs + ys == ys;
      if BuildAll(ys, build).Ok? {
        assert [] + BuildAll(ys, build).value == BuildAll(ys, build).value;
      }
    }
  }

  /** Step of the loop over profiles: the survivors of the profiles read so
      far, extended by one more profile. */
  lemma SurvivorsStep(done: seq<RawProfile>, ds: Dataset, i: nat)
    requires i < |ds|
    ensures Masks.Filter(done + ds[..i + 1], Kept) ==
      Masks.Filter(done + ds[..i], Kept) + (if Kept(ds[i]) then [ds[i]] else [])
  {
    assert done + ds[..i + 1] == (done + ds[..i]) + [ds[i]];
    Masks.FilterAppend(done + ds[..i], [ds[i]], Kept);
    Masks.FilterSingleton(ds[i], Kept);
  }

  /** Once the records of a prefix raise, so do the records of the whole. */
  lemma BuildAllErrPrefix(xs: seq<RawProfile>, ys: seq<RawProfile>, build: RawProfile -> Result<ProfileRecord>)
    requires BuildAll(xs, build).Err?
    ensures BuildAll(xs + ys, build) == BuildAll(xs, build)
  {
    BuildAllAppend(xs, ys, build);
  }

  /** Lines 75-97 for one kept profile: decode its time, then its platform
      number, and assemble the record. */
  method ReadProfile(p: RawProfile) returns (r: Result<ProfileRecord>)
    ensures r == BuildRecord(p)
  {
    var time := Julian.JulianToDatetime(Julian.ZeroDim(p.juld));
    Julian.ScalarIsSoleElement(p.juld);
    Julian.ZeroDimRejectedAsWritten(p.juld);
    if time.Err? {
      return Err(time.error);
    }
    var platform := CharArrays.DecodeCharArray(p.platformNumber);
    if platform.Err? {
      return Err(platform.error);
    }
    r := Ok(ProfileRecord(platform.value, p.cycleNumber, time.value.t,
                          Coordinate(p.latitude), Coordinate(p.longitude),
                          p.temp, p.pres, p.psal));
  }

  /** Building one profile more. */
  lemma BuildAllSnoc(xs: seq<RawProfile>, p: RawProfile, build: RawProfile -> Result<ProfileRecord>)
    requires BuildAll(xs, build).Ok?
    ensures BuildAll(xs + [p], build) ==
      if build(p).Ok? then Ok(BuildAll(xs, build).value + [build(p).value]) else Err(build(p).error)
  {
    BuildAllAppend(xs, [p], build);
    assert [p][1..] == [];
    if build(p).Ok? {
      assert [build(p).value] + [] == [build(p).value];
    }
    assert BuildAll([p], build) == if build(p).Ok? then Ok([build(p).value]) else Err(build(p).error);
  }

  /** One step of the loop over profiles, for a profile that is skipped or
      whose record is built. */
  lemma ReadStep(done: seq<RawProfile>, ds: Dataset, i: nat, acc: seq<ProfileRecord>, build: RawProfile -> Result<ProfileRecord>)
    requires i < |ds|
    requires BuildAll(Masks.Filter(done + ds[..i], Kept), build) == Ok(acc)
    requires Kept(ds[i]) ==> build(ds[i]).Ok?
    ensures BuildAll(Masks.Filter(done + ds[..i + 1], Kept), build) ==
      Ok(if Kept(ds[i]) then acc + [build(ds[i]).value] else acc)
  {
    var before := Masks.Filter(done + ds[..i], Kept);
    SurvivorsStep(done, ds, i);
    if Kept(ds[i]) {
      BuildAllSnoc(before, ds[i], build);
    } else {
      assert before + [] == before;
    }
  }

  /** The survivors of a file read up to and past profile i. */
  lemma SurvivorsAround(done: seq<RawProfile>, ds: Dataset, i: nat)
    requires i < |ds|
    ensures Masks.Filter(done + ds, Kept) ==
      Masks.Filter(done + ds[..i], Kept) + (if Kept(ds[i]) then [ds[i]] else []) + Masks.Filter(ds[i + 1..], Kept)
  {
    assert done + ds == (done + ds[..i + 1]) + ds[i + 1..];
    Masks.FilterAppend(done + ds[..i + 1], ds[i + 1..], Kept);
    SurvivorsStep(done, ds, i);
  }

  /** A profile whose record raises aborts everything after it. */
  lemma BuildAllErrAt(xs: seq<RawProfile>, p: RawProfile, ys: seq<RawProfile>, build: RawProfile -> Result<ProfileRecord>)
    requires BuildAll(xs, build).Ok? && build(p).Err?
    ensures BuildAll(xs + [p] + ys, build) == Err(build(p).error)
  {
    BuildAllSnoc(xs, p, build);
    BuildAllErrPrefix(xs + [p], ys, build);
  }

  /** A kept profile whose record raises aborts the whole file with that
      exception. */
  lemma ReadFails(done: seq<RawProfile>, ds: Dataset, i: nat, acc: seq<ProfileRecord>, build: RawProfile -> Result<ProfileRecord>)
    requires i < |ds|
    requires BuildAll(Masks.Filter(done + ds[..i], Kept), build) == Ok(acc)
    requires Kept(ds[i]) && build(ds[i]).Err?
    ensures BuildAll(Masks.Filter(done + ds, Kept), build) == Err(build(ds[i]).error)
  {
    SurvivorsAround(done, ds, i);
    BuildAllErrAt(Masks.Filter(done + ds[..i], Kept), ds[i], Masks.Filter(ds[i + 1..], Kept), build);
  }

  /** The loop over the profiles of one file (lines 70-98), continuing the
      records of the profiles `done` read before it. */
  method ReadDataset(done: seq<RawProfile>, ds: Dataset, profiles: seq<ProfileRecord>) returns (r: Result<seq<ProfileRecord>>)
    requires BuildAll(Masks.Filter(done, Kept), BuildRecord) == Ok(profiles)
    ensures r == BuildAll(Masks.Filter(done + ds, Kept), BuildRecord)
  {
    var acc := profiles;
    var i := 0;
    assert done + ds[..0] == done;
    while i < |ds|
      invariant 0 <= i <= |ds|
      invariant BuildAll(Masks.Filter(done + ds[..i], Kept), BuildRecord) == Ok(acc)
    {
      var p := ds[i];
      if Eq(p.juld, JuldFillValue) {
        ReadStep(done, ds, i, acc, BuildRecord);
        i := i + 1;
        continue;
      }
      var record := ReadProfile(p);
      if record.Err? {
        ReadFails(done, ds, i, acc, BuildRecord);
        return Err(record.error);
      }
      ReadStep(done, ds, i, acc, BuildRecord);
      acc := acc + [record.value];
      i := i + 1;
    }
    assert ds[..|ds|] == ds;
    r := Ok(acc);
  }

  /** `load_argo_data`: the loop over files, each read by ReadDataset. */
  method LoadArgoData(files: seq<Dataset>) returns (r: Result<seq<ProfileRecord>>)
    ensures r == Load(files)
  {
    var profiles: seq<ProfileRecord> := [];
    var f := 0;
    while f < |files|
      invariant 0 <= f <= |files|
      invariant BuildAll(Survivors(files[..f]), BuildRecord) == Ok(profiles)
    {
      NextFile(files, f);
      var next := ReadDataset(Flatten(files[..f]), files[f], profiles);
      if next.Err? {
        LaterFilesIgnored(files, f + 1, BuildRecord);
        return next;
      }
      profiles := next.value;
      f := f + 1;
    }
    assert files[..|files|] == files;
    r := Ok(profiles);
  }

  /** The profiles of the first f + 1 files are those of the first f
      followed by those of file f. */
  lemma NextFile(files: seq<Dataset>, f: nat)
    requires f < |files|
    ensures Flatten(files[..f + 1]) == Flatten(files[..f]) + files[f]
  {
    assert files[..f + 1][..f] == files[..f];
  }

  /** Once the survivors of the first f files raise, the later files do
      not change the outcome. */
  lemma LaterFilesIgnored(files: seq<Dataset>, f: nat, build: RawProfile -> Result<ProfileRecord>)
    requires f <= |files|
    requires BuildAll(Survivors(files[..f]), build).Err?
    ensures BuildAll(Survivors(files), build) == BuildAll(Survivors(files[..f]), build)
  {
    assert files == files[..f] + files[f..];
    FlattenAppend(files[..f], files[f..]);
    Masks.FilterAppend(Flatten(files[..f]), Flatten(files[f..]), Kept);
    BuildAllErrPrefix(Survivors(files[..f]), Survivors(files[f..]), build);
  }

  /** Profile i of file f is entry TotalProfiles(files[..f]) + i of the
      flattened sequence, which holds all profiles and nothing else. */
  lemma {:induction false} FlattenOrder(files: seq<Dataset>, f: nat, i: nat)
    requires f < |files| && i < |files[f]|
    ensures |Flatten(files)| == TotalProfiles(files)
    ensures TotalProfiles(files[..f]) + i < |Flatten(files)|
    ensures Flatten(files)[TotalProfiles(files[..f]) + i] == files[f][i]
  {
    var n := |files| - 1;
    FlattenLength(files);
    if f < n {
      assert files[..n][..f] == files[..f];
      FlattenOrder(files[..n], f, i);
    } else {
      FlattenLength(files[..n]);
      assert files[..f] == files[..n];
    }
  }

  lemma {:induction false} FlattenLength(files: seq<Dataset>)
    ensures |Flatten(files)| == TotalProfiles(files)
  {
    if |files| > 0 {
      FlattenLength(files[..|files| - 1]);
    }
  }

  /** The loader emits one record per surviving profile and no other:
      survivors are exactly the profiles whose JULD is not 999999.0, taken
      in file order then index order, so there are at most as many records
      as profiles. Loading succeeds exactly when every survivor's record
      can be built, and record k is survivor k's. */
  lemma LoadSpec(files: seq<Dataset>)
    ensures var idx := Masks.TrueIndices(Masks.Where(Flatten(files), Kept));
      && |Survivors(files)| == |idx| <= TotalProfiles(files)
      && (forall k :: 0 <= k < |idx| ==> Survivors(files)[k] == Flatten(files)[idx[k]])
      && (forall k, l :: 0 <= k < l < |idx| ==> idx[k] < idx[l])
      && (forall j :: 0 <= j < |Flatten(files)| ==> (Kept(Flatten(files)[j]) <==> j in idx))
    ensures Load(files).Ok? <==> forall k :: 0 <= k < |Survivors(files)| ==> BuildRecord(Survivors(files)[k]).Ok?
    ensures Load(files).Ok? ==>
      |Load(files).value| == |Survivors(files)| <= TotalProfiles(files) &&
      forall k :: 0 <= k < |Survivors(files)| ==> Load(files).value[k] == BuildRecord(Survivors(files)[k]).value
  {
    Masks.FilterExactly(Flatten(files), Kept);
    FlattenLength(files);
  }

  /** What the record of a profile holds (lines 75-97): the decoded time,
      the decoded platform number, the cycle number and the level arrays
      unchanged, and each coordinate NaN exactly when it was the fill value
      99999.0 (or already NaN), the raw value otherwise. It is built exactly
      when both decodings succeed, and otherwise raises the first failure. */
  lemma RecordSpec(p: RawProfile)
    ensures BuildRecord(p).Ok? <==>
      Julian.DecodeOffset(p.juld).Ok? && CharArrays.DecodeCharArray(p.platformNumber).Ok?
    ensures BuildRecord(p).Err? ==>
      BuildRecord(p).error == (if Julian.DecodeOffset(p.juld).Err? then Julian.DecodeOffset(p.juld).error
                               else CharArrays.DecodeCharArray(p.platformNumber).error)
    ensures BuildRecord(p).Ok? ==> var rec := BuildRecord(p).value;
      && rec.timeUtc == Julian.DecodeOffset(p.juld).value
      && rec.platform == CharArrays.DecodeCharArray(p.platformNumber).value
      && rec.cycle == p.cycleNumber && rec.temp == p.temp && rec.pres == p.pres && rec.psal == p.psal
      && (rec.lat.NaN? <==> Eq(p.latitude, FillValue) || p.latitude.NaN?)
      && (!Eq(p.latitude, FillValue) ==> rec.lat == p.latitude)
      && (rec.lon.NaN? <==> Eq(p.longitude, FillValue) || p.longitude.NaN?)
      && (!Eq(p.longitude, FillValue) ==> rec.lon == p.longitude)
  {
    Julian.ScalarIsSoleElement(p.juld);
    Julian.ZeroDimRejectedAsWritten(p.juld);
  }

  /** The loader skips only JULD == 999999.0, but the decoder gives no time
      to NaN (line 51) and to every value of at least 999999 (line 46): a
      JULD above 999999, +inf or NaN survives the skip, and (with the 0-d
      JULD decoded as a scalar) its record has no time and is built exactly
      when its platform decodes. */
  lemma FillAboveJuldFillIsKept(p: RawProfile)
    requires (p.juld.Finite? && p.juld.v > JuldFillValue) || p.juld.PosInf? || p.juld.NaN?
    ensures Kept(p)
    ensures BuildRecord(p).Ok? <==> CharArrays.DecodeCharArray(p.platformNumber).Ok?
    ensures BuildRecord(p).Ok? ==> BuildRecord(p).value.timeUtc.None?
  {
    RecordSpec(p);
  }

  /** As written, the loader raises TypeError as soon as one profile
      survives the skip, and returns no records only when none does. */
  lemma LoadAsWrittenRaises(files: seq<Dataset>)
    ensures LoadAsWritten(files) == if |Survivors(files)| == 0 then Ok([]) else Err(TypeError)
  {
    var ps := Survivors(files);
    if |ps| > 0 {
      Julian.ZeroDimRejectedAsWritten(ps[0].juld);
      assert BuildRecordAsWritten(ps[0]) == Err(TypeError);
    }
  }
}
