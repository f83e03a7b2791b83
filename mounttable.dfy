/**
 * The mount table read as a whole: the line generator over the table text
 * and the three queries built on it, finding a mount point by its target,
 * listing mount points through filters, and checking whether a path is a
 * mount point.
 */
module MountTable {
  import opened Results
  import opened PyStr
  import opened Decimal
  import opened MountLine

  /** The file holding a mount table: the current process's, or that of process `pid`. */
  function MountInfoPath(pid: Option<int>): (path: string)
    ensures pid.None? ==> path == "/proc/mounts"
    ensures pid.Some? ==> |path| > 13 && path[..6] == "/proc/" && path[|path| - 7..] == "/mounts"
    ensures pid.Some? ==> path[6..|path| - 7] == IntToDecimal(pid.value)
  {
    match pid
    case None => "/proc/mounts"
    case Some(n) =>
      var digits := IntToDecimal(n);
      var path := "/proc/" + digits + "/mounts";
      assert path[6..|path| - 7] == digits;
      path
  }

  /**
   * What the line generator produces for a table: the records it yields, in
   * table order, and the error it raises after them, if any. Consumers that
   * stop early never see the lines after the point where they stopped.
   */
  datatype Stream = Stream(yielded: seq<MountPoint>, failure: Option<ParseError>)

  /** The generator over a list of lines: empty lines are skipped, every other line is parsed. */
  function ScanLines(lines: seq<string>, env: Resolver): (s: Stream)
    ensures |s.yielded| <= |lines|
  {
    if lines == [] then Stream([], None)
    else if lines[0] == "" then ScanLines(lines[1..], env)
    else
      match ParseLine(lines[0], env)
      case Err(e) => Stream([], Some(e))
      case Ok(m) =>
        var rest := ScanLines(lines[1..], env);
        Stream([m] + rest.yielded, rest.failure)
  }

  /** The generator over the text of a mount table, split into lines at each newline. */
  function Table(text: string, env: Resolver): (s: Stream)
    ensures |s.yielded| <= Count(text, '\n') + 1
  {
    SplitPieces(text, '\n');
    ScanLines(Split(text, '\n'), env)
  }

  /** One stream followed by another: the second is reached only if the first raised nothing. */
  function Then(first: Stream, second: Stream): Stream {
    if first.failure.Some? then first else Prepend(first.yielded, second)
  }

  /** Records yielded before the ones of a later stream. */
  function Prepend(front: seq<MountPoint>, s: Stream): Stream {
    Stream(front + s.yielded, s.failure)
  }

  /** The non-empty lines, in order. */
  function NonEmpty(lines: seq<string>): (r: seq<string>)
    ensures forall k :: 0 <= k < |r| ==> r[k] != ""
    ensures forall l :: l in r <==> l in lines && l != ""
  {
    if lines == [] then []
    else (if lines[0] == "" then [] else [lines[0]]) + NonEmpty(lines[1..])
  }

  /** The position of the first record whose target is `target`, if there is one. */
  function FirstWithTarget(ms: seq<MountPoint>, target: string): (i: Option<nat>)
    ensures i.Some? ==> i.value < |ms| && ms[i.value].target == target
    ensures i.Some? ==> forall j :: 0 <= j < i.value ==> ms[j].target != target
    ensures i.None? <==> forall j :: 0 <= j < |ms| ==> ms[j].target != target
  {
    if ms == [] then None
    else if ms[0].target == target then Some(0)
    else
      match FirstWithTarget(ms[1..], target)
      case None => None
      case Some(i) => Some(i + 1)
  }

  /**
   * What a scan that stops at the first record for `target` reports: that
   * record; otherwise the error the generator raised; otherwise nothing.
   */
  function Lookup(s: Stream, target: string): (r: Result<Option<MountPoint>, ParseError>)
    ensures r.Ok? && r.value.Some? <==> exists j :: 0 <= j < |s.yielded| && s.yielded[j].target == target
    ensures r.Ok? && r.value.Some? ==> r.value.value == s.yielded[FirstWithTarget(s.yielded, target).value]
    ensures r.Err? <==> s.failure.Some? && forall j :: 0 <= j < |s.yielded| ==> s.yielded[j].target != target
    ensures r.Err? ==> r.error == s.failure.value
  {
    match FirstWithTarget(s.yielded, target)
    case Some(i) => Ok(Some(s.yielded[i]))
    case None =>
      match s.failure
      case Some(e) => Err(e)
      case None => Ok(None)
  }

  /** Whether a record passes the filters of `listAllMountPoints`; an absent filter passes everything. */
  predicate Selected(m: MountPoint, source: Option<string>, target: Option<string>, fstype: Option<string>) {
    && (source.None? || m.source == source.value)
    && (target.None? || m.target == target.value)
    && (fstype.None? || m.fstype == fstype.value)
  }

  /** The records that pass the filters, in their original order. */
  function Select(ms: seq<MountPoint>, source: Option<string>, target: Option<string>, fstype: Option<string>)
    : (r: seq<MountPoint>)
    ensures |r| <= |ms|
  {
    if ms == [] then []
    else
      var last := ms[|ms| - 1];
      Select(ms[..|ms| - 1], source, target, fstype) + (if Selected(last, source, target, fstype) then [last] else [])
  }

  /** A record is listed exactly when it is in the table and passes the filters. */
  lemma {:induction false} SelectMembers(ms: seq<MountPoint>, source: Option<string>, target: Option<string>,
                                         fstype: Option<string>)
    ensures forall m :: m in Select(ms, source, target, fstype) <==> m in ms && Selected(m, source, target, fstype)
  {
    if ms != [] {
      var init := ms[..|ms| - 1];
      SelectMembers(init, source, target, fstype);
      assert ms == init + [ms[|ms| - 1]];
    }
  }

  /**
   * The positions of the records that pass the filters: in increasing order,
   * each of a record that passes, and every such record's position among them.
   */
  function SelectedPositions(ms: seq<MountPoint>, source: Option<string>, target: Option<string>, fstype: Option<string>)
    : (ps: seq<nat>)
    ensures forall k :: 0 <= k < |ps| ==> ps[k] < |ms| && Selected(ms[ps[k]], source, target, fstype)
    ensures forall k, l :: 0 <= k < l < |ps| ==> ps[k] < ps[l]
    ensures forall j :: 0 <= j < |ms| && Selected(ms[j], source, target, fstype) ==> j in ps
  {
    if ms == [] then []
    else
      var n := |ms| - 1;
      var front := SelectedPositions(ms[..n], source, target, fstype);
      assert forall j :: 0 <= j < n ==> ms[..n][j] == ms[j];
      front + (if Selected(ms[n], source, target, fstype) then [n] else [])
  }

  /** The path a query is compared with: `None` stays `None`, a path is resolved. */
  function ResolveFilter(target: Option<string>, env: Resolver): (r: Option<string>)
    ensures r.None? <==> target.None?
    ensures target.Some? ==> r == Some(env.resolve(target.value))
  {
    match target
    case None => None
    case Some(t) => Some(env.resolve(t))
  }

  // ----- The queries -----

  /**
   * `findMountPointByTarget`: resolves the query, then walks the table and
   * returns the first record whose target is that path. It stops there, so
   * lines after the match are never parsed; a bad line before any match
   * raises.
   */
  method FindMountPointByTarget(text: string, target: string, env: Resolver)
    returns (r: Result<Option<MountPoint>, ParseError>)
    ensures r == Lookup(Table(text, env), env.resolve(target))
  {
    var targetPath := env.resolve(target);
    var lines := Split(text, '\n');
    for i := 0 to |lines|
      invariant Lookup(ScanLines(lines[i..], env), targetPath) == Lookup(ScanLines(lines, env), targetPath)
    {
      assert lines[i..][1..] == lines[i + 1..];
      if lines[i] != "" {
        var parsed := ParseLine(lines[i], env);
        if parsed.Err? {
          return Err(parsed.error);
        }
        var mountpoint := parsed.value;
        if mountpoint.target == targetPath {
          return Ok(Some(mountpoint));
        }
        StepPastOtherTarget(mountpoint, ScanLines(lines[i + 1..], env), targetPath);
      }
    }
    return Ok(None);
  }

  /**
   * `listAllMountPoints`: parses the whole table and keeps, in table order,
   * the records that pass every filter given. Any bad line raises, wherever
   * it is.
   */
  method ListAllMountPoints(text: string, source: Option<string>, target: Option<string>, fstype: Option<string>,
                            env: Resolver)
    returns (r: Result<seq<MountPoint>, ParseError>)
    ensures var s := Table(text, env);
      r == if s.failure.Some? then Err(s.failure.value)
           else Ok(Select(s.yielded, source, ResolveFilter(target, env), fstype))
  {
    var mountpoints: seq<MountPoint> := [];
    var targetPath := ResolveFilter(target, env);
    var lines := Split(text, '\n');
    ghost var seen: seq<MountPoint> := [];
    for i := 0 to |lines|
      invariant ScanLines(lines, env) == Prepend(seen, ScanLines(lines[i..], env))
      invariant mountpoints == Select(seen, source, targetPath, fstype)
    {
      ScanStep(lines, i, env);
      if lines[i] != "" {
        var parsed := ParseLine(lines[i], env);
        if parsed.Err? {
          return Err(parsed.error);
        }
        var mountpoint := parsed.value;
        PrependOne(seen, mountpoint, ScanLines(lines[i + 1..], env));
        SelectSnoc(seen, mountpoint, source, targetPath, fstype);
        seen := seen + [mountpoint];
        if Selected(mountpoint, source, targetPath, fstype) {
          mountpoints := mountpoints + [mountpoint];
        }
      }
    }
    assert lines[|lines|..] == [];
    assert seen + [] == seen;
    return Ok(mountpoints);
  }

  /**
   * `isMountPoint`: true exactly when the first record for the resolved path
   * exists and passes the source and type filters. A later record for the
   * same path is never looked at, even one that would pass.
   */
  method IsMountPoint(text: string, target: string, source: Option<string>, fstype: Option<string>, env: Resolver)
    returns (r: Result<bool, ParseError>)
    ensures var s := Table(text, env); var first := FirstWithTarget(s.yielded, env.resolve(target));
      && (r.Err? <==> first.None? && s.failure.Some?)
      && (r.Err? ==> r.error == s.failure.value)
      && (r.Ok? ==> (r.value <==> first.Some? && Selected(s.yielded[first.value], source, None, fstype)))
  {
    var found := FindMountPointByTarget(text, target, env);
    match found {
      case Err(e) =>
        return Err(e);
      case Ok(None) =>
        return Ok(false);
      case Ok(Some(mountpoint)) =>
        if source.Some? && mountpoint.source != source.value {
          return Ok(false);
        }
        if fstype.Some? && mountpoint.fstype != fstype.value {
          return Ok(false);
        }
        return Ok(true);
    }
  }

  // ----- Lemmas -----

  /** One step of the generator, at line `i`. */
  lemma ScanStep(lines: seq<string>, i: nat, env: Resolver)
    requires i < |lines|
    ensures ScanLines(lines[i..], env)
         == if lines[i] == "" then ScanLines(lines[i + 1..], env)
            else match ParseLine(lines[i], env)
              case Err(e) => Stream([], Some(e))
              case Ok(m) => Prepend([m], ScanLines(lines[i + 1..], env))
  {
    assert lines[i..][0] == lines[i];
    assert lines[i..][1..] == lines[i + 1..];
  }

  /** Putting records in front of a stream one at a time is putting them all at once. */
  lemma PrependOne(front: seq<MountPoint>, m: MountPoint, s: Stream)
    ensures Prepend(front, Prepend([m], s)) == Prepend(front + [m], s)
  {
    assert front + ([m] + s.yielded) == (front + [m]) + s.yielded;
  }

  /** Adding a record at the end adds it to the listing exactly when it passes the filters. */
  lemma SelectSnoc(ms: seq<MountPoint>, m: MountPoint,
                   source: Option<string>, target: Option<string>, fstype: Option<string>)
    ensures Select(ms + [m], source, target, fstype)
         == Select(ms, source, target, fstype) + (if Selected(m, source, target, fstype) then [m] else [])
  {
    assert (ms + [m])[..|ms|] == ms;
  }

  /** A record for another target in front of a stream does not change what a lookup finds. */
  lemma StepPastOtherTarget(m: MountPoint, rest: Stream, target: string)
    requires m.target != target
    ensures Lookup(Stream([m] + rest.yielded, rest.failure), target) == Lookup(rest, target)
  {
    var ys := [m] + rest.yielded;
    assert ys[1..] == rest.yielded;
  }

  /** Scanning two lists of lines one after the other: the second is reached only if the first raised nothing. */
  lemma {:induction false} ScanAppend(a: seq<string>, b: seq<string>, env: Resolver)
    ensures ScanLines(a + b, env) == Then(ScanLines(a, env), ScanLines(b, env))
  {
    if a != [] {
      var tail := a[1..];
      assert a == [a[0]] + tail;
      assert a + b == [a[0]] + (tail + b);
      ScanAppend(tail, b, env);
      ScanCons(a[0], tail + b, env);
      ScanCons(a[0], tail, env);
      ThenAssoc(ScanLines([a[0]], env), ScanLines(tail, env), ScanLines(b, env));
    } else {
      assert a + b == b;
      assert [] + ScanLines(b, env).yielded == ScanLines(b, env).yielded;
    }
  }

  /** The scan of a line followed by more lines: that line's scan, then the rest's. */
  lemma ScanCons(line: string, rest: seq<string>, env: Resolver)
    ensures ScanLines([line] + rest, env) == Then(ScanLines([line], env), ScanLines(rest, env))
  {
    assert ([line] + rest)[1..] == rest;
    assert [line][1..] == [];
  }

  /** Chaining three streams does not depend on how the chaining is grouped. */
  lemma ThenAssoc(x: Stream, y: Stream, z: Stream)
    ensures Then(x, Then(y, z)) == Then(Then(x, y), z)
  {
    assert x.yielded + (y.yielded + z.yielded) == (x.yielded + y.yielded) + z.yielded;
  }

  /** A table whose non-empty lines all parse raises nothing. */
  lemma {:induction false} WellFormedTableRaisesNothing(lines: seq<string>, env: Resolver)
    requires forall k :: 0 <= k < |lines| && lines[k] != "" ==> ParseLine(lines[k], env).Ok?
    ensures ScanLines(lines, env).failure.None?
  {
    if lines != [] {
      var tail := lines[1..];
      assert forall k :: 0 <= k < |tail| ==> tail[k] == lines[k + 1];
      WellFormedTableRaisesNothing(tail, env);
    }
  }

  /** A scan that raised nothing yields exactly one record per non-empty line. */
  lemma {:induction false} OneRecordPerLine(lines: seq<string>, env: Resolver)
    requires ScanLines(lines, env).failure.None?
    ensures |ScanLines(lines, env).yielded| == |NonEmpty(lines)|
  {
    if lines != [] {
      OneRecordPerLine(lines[1..], env);
    }
  }

  /** In a scan that raised nothing, the k-th record is the parse of the k-th non-empty line. */
  lemma {:induction false} RecordOfLine(lines: seq<string>, env: Resolver, k: nat)
    requires ScanLines(lines, env).failure.None?
    requires k < |NonEmpty(lines)|
    ensures k < |ScanLines(lines, env).yielded|
    ensures ParseLine(NonEmpty(lines)[k], env) == Ok(ScanLines(lines, env).yielded[k])
  {
    var tail := lines[1..];
    if lines[0] == "" {
      assert NonEmpty(lines) == NonEmpty(tail);
      RecordOfLine(tail, env, k);
    } else if k > 0 {
      assert NonEmpty(lines)[k] == NonEmpty(tail)[k - 1];
      RecordOfLine(tail, env, k - 1);
    }
  }

  /**
   * A single bad line makes the generator raise: the first non-empty line
   * that does not parse gives the error, after the records of the lines
   * before it.
   */
  lemma {:induction false} FirstBadLineRaises(lines: seq<string>, env: Resolver, k: nat)
    requires k < |lines| && lines[k] != "" && ParseLine(lines[k], env).Err?
    requires forall j :: 0 <= j < k && lines[j] != "" ==> ParseLine(lines[j], env).Ok?
    ensures ScanLines(lines, env)
         == Stream(ScanLines(lines[..k], env).yielded, Some(ParseLine(lines[k], env).error))
  {
    if k == 0 {
      assert lines[..0] == [];
    } else {
      var tail := lines[1..];
      assert forall j :: 0 <= j < k - 1 ==> tail[j] == lines[j + 1];
      FirstBadLineRaises(tail, env, k - 1);
      var front := lines[..k];
      assert front[0] == lines[0];
      assert front[1..] == tail[..k - 1];
    }
  }

  /** A line of spaces is not skipped: it is parsed, and fails the field count. */
  lemma BlankLineFailsTable(lines: seq<string>, env: Resolver, k: nat)
    requires k < |lines| && lines[k] != ""
    requires forall c :: c in lines[k] ==> c == ' '
    requires forall j :: 0 <= j < k && lines[j] != "" ==> ParseLine(lines[j], env).Ok?
    ensures ScanLines(lines, env).failure == Some(WrongFieldCount(lines[k]))
  {
    forall j | 0 <= j < |lines[k]|
      ensures IsStripChar(lines[k][j])
    {
      assert lines[k][j] in lines[k];
    }
    BlankLineRejected(lines[k], env);
    FirstBadLineRaises(lines, env, k);
  }

  /** The first match found in the front part of a list is the first match of the whole list. */
  lemma FirstMatchOfPrefix(a: seq<MountPoint>, b: seq<MountPoint>, target: string)
    requires FirstWithTarget(a, target).Some?
    ensures FirstWithTarget(a + b, target) == FirstWithTarget(a, target)
  {
    var i := FirstWithTarget(a, target).value;
    assert (a + b)[i] == a[i];
    var i' := FirstWithTarget(a + b, target).value;
    assert i' <= i;
    assert (a + b)[i'] == a[i'];
  }

  /**
   * A lookup stops at its first match: whatever follows the line that
   * matched, even a line that would not parse, does not change the answer.
   */
  lemma LookupIgnoresTextAfterMatch(front: string, back: string, env: Resolver, target: string)
    requires FirstWithTarget(Table(front, env).yielded, target).Some?
    ensures Lookup(Table(front + "\n" + back, env), target) == Lookup(Table(front, env), target)
  {
    SplitConcat(front, back, '\n');
    ScanAppend(Split(front, '\n'), Split(back, '\n'), env);
    var sa := Table(front, env);
    if sa.failure.None? {
      FirstMatchOfPrefix(sa.yielded, Table(back, env).yielded, target);
    }
  }

  /** Every parsed target is a resolved path. */
  lemma {:induction false} YieldedTargetsResolved(lines: seq<string>, env: Resolver, k: nat)
    requires forall p :: env.resolve(env.resolve(p)) == env.resolve(p)
    requires k < |ScanLines(lines, env).yielded|
    ensures var m := ScanLines(lines, env).yielded[k]; env.resolve(m.target) == m.target
  {
    if lines[0] == "" {
      YieldedTargetsResolved(lines[1..], env, k);
    } else if k > 0 {
      YieldedTargetsResolved(lines[1..], env, k - 1);
    } else {
      ParseLineAccepts(lines[0], env);
    }
  }

  /**
   * A record found in the table can be used as the query (through its path):
   * the lookup then finds a record for the same target, at or before it. This
   * needs resolving to be idempotent, as it is on a file system that does not
   * change in between.
   */
  lemma FindsRecordByItsOwnPath(text: string, env: Resolver, k: nat)
    requires forall p :: env.resolve(env.resolve(p)) == env.resolve(p)
    requires k < |Table(text, env).yielded|
    ensures var s := Table(text, env); var m := s.yielded[k];
      var i := FirstWithTarget(s.yielded, env.resolve(m.FsPath()));
      && i.Some? && i.value <= k
      && Lookup(s, env.resolve(m.FsPath())) == Ok(Some(s.yielded[i.value]))
      && s.yielded[i.value].target == m.target
  {
    YieldedTargetsResolved(Split(text, '\n'), env, k);
  }

  /** With no filters every record is listed. */
  lemma {:induction false} SelectWithoutFilters(ms: seq<MountPoint>)
    ensures Select(ms, None, None, None) == ms
  {
    if ms != [] {
      SelectWithoutFilters(ms[..|ms| - 1]);
      assert ms == ms[..|ms| - 1] + [ms[|ms| - 1]];
    }
  }

  /**
   * The listing is the subsequence of exactly the records that pass the
   * filters: the k-th listed record is the record at the k-th selected
   * position, and those positions increase and cover every record that
   * passes.
   */
  lemma {:induction false} SelectKeepsTableOrder(
    ms: seq<MountPoint>, source: Option<string>, target: Option<string>, fstype: Option<string>)
    ensures var r := Select(ms, source, target, fstype); var ps := SelectedPositions(ms, source, target, fstype);
      && |ps| == |r|
      && forall k :: 0 <= k < |ps| ==> r[k] == ms[ps[k]]
  {
    if ms != [] {
      var n := |ms| - 1;
      var init := ms[..n];
      SelectKeepsTableOrder(init, source, target, fstype);
      var keep := Selected(ms[n], source, target, fstype);
      PairingExtends(ms, Select(init, source, target, fstype), SelectedPositions(init, source, target, fstype), keep);
    }
  }

  /** Positions paired with records of a table's front stay paired when the last record may be added. */
  lemma PairingExtends(ms: seq<MountPoint>, rs: seq<MountPoint>, ps: seq<nat>, keep: bool)
    requires |ms| > 0 && |ps| == |rs|
    requires forall k :: 0 <= k < |ps| ==> ps[k] < |ms| - 1 && rs[k] == ms[..|ms| - 1][ps[k]]
    ensures var n := |ms| - 1;
      var rs' := rs + (if keep then [ms[n]] else []); var ps' := ps + (if keep then [n] else []);
      && |ps'| == |rs'|
      && forall k :: 0 <= k < |ps'| ==> rs'[k] == ms[ps'[k]]
  {
  }

  /**
   * A lookup and a listing filtered by the same target agree: when the table
   * parses, the lookup finds nothing exactly when the listing is empty, and
   * otherwise finds the listing's first record.
   */
  lemma LookupIsFirstListed(s: Stream, target: string)
    requires s.failure.None?
    ensures var listed := Select(s.yielded, None, Some(target), None);
      && (Lookup(s, target) == Ok(None) <==> listed == [])
      && (listed != [] ==> Lookup(s, target) == Ok(Some(listed[0])))
  {
    var ys := s.yielded;
    var listed := Select(ys, None, Some(target), None);
    SelectKeepsTableOrder(ys, None, Some(target), None);
    var ps := SelectedPositions(ys, None, Some(target), None);
    match FirstWithTarget(ys, target)
    case None =>
    case Some(i) =>
      assert Selected(ys[i], None, Some(target), None);
      assert i in ps;
      var l :| 0 <= l < |ps| && ps[l] == i;
      assert ps[0] <= i by {
        if l > 0 {
          assert ps[0] < ps[l];
        }
      }
      assert ys[ps[0]].target == target by {
        assert Selected(ys[ps[0]], None, Some(target), None);
      }
  }
}
