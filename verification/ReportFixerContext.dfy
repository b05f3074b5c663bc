/** FixupContext: the fixer's callbacks on their own depth stack and version array,
    shown to be those of ReportFixer. */
module ReportFixerContext {
  import opened JsonText
  import opened JsonEncoder
  import opened JsonEncodeContext
  import opened ReportFixer

  class FixupContext {
    const libc: Libc
    const encodeContext: EncodeContext
    const reportVersionComponents: array<int>
    const objectPath: array<string>
    var currentDepth: nat

    ghost predicate Valid()
      reads this, encodeContext, encodeContext.isObject
    {
      && encodeContext.Valid() && reportVersionComponents.Length == 3
      && objectPath.Length == MAX_DEPTH && currentDepth <= MAX_DEPTH
    }

    ghost function Version3(): Version
      reads reportVersionComponents
      requires reportVersionComponents.Length == 3
    {
      Version(reportVersionComponents[0], reportVersionComponents[1], reportVersionComponents[2])
    }

    ghost function Model(): Fix
      reads this, encodeContext, encodeContext.isObject, reportVersionComponents, objectPath
      requires Valid()
    {
      Fix(encodeContext.Model(), objectPath[..currentDepth], Version3())
    }

    constructor (libc: Libc, report: string, version: Version)
      ensures Valid() && Model() == Start(report, version) && this.libc == libc
      ensures fresh(encodeContext) && fresh(encodeContext.isObject) && fresh(reportVersionComponents)
              && fresh(objectPath)
      ensures encodeContext.containerLevel <= currentDepth
    {
      this.libc := libc;
      encodeContext := new EncodeContext.BeginEncode(true, Some(|report| * 3 / 2));
      var components := new int[3];
      components[0], components[1], components[2] := version.major, version.minor, version.patch;
      reportVersionComponents := components;
      objectPath := new string[MAX_DEPTH](_ => "");
      currentDepth := 0;
      new;
      assert encodeContext.Model().stack == [];
    }

    method IncreaseDepth(name: Option<string>) returns (ok: bool)
      requires objectPath.Length == MAX_DEPTH && currentDepth <= MAX_DEPTH
      modifies this`currentDepth, objectPath
      ensures currentDepth <= MAX_DEPTH && ok == (old(currentDepth) < MAX_DEPTH)
      ensures objectPath[..currentDepth] == old(objectPath[..currentDepth]) + if ok then [Clip(Key(name))] else []
    {
      if currentDepth >= MAX_DEPTH {
        return false;
      }
      objectPath[currentDepth] := Clip(if name.None? then "" else name.value);
      currentDepth := currentDepth + 1;
      return true;
    }

    method DecreaseDepth() returns (ok: bool)
      modifies this`currentDepth
      ensures currentDepth == if ok then old(currentDepth) - 1 else old(currentDepth)
      ensures ok == (old(currentDepth) > 0)
    {
      if currentDepth <= 0 {
        return false;
      }
      currentDepth := currentDepth - 1;
      return true;
    }

    /** matchesPath, where it does not walk onto the null entries behind the path. */
    method ComparePath(path: seq<string>, finalName: Option<string>) returns (matches: bool)
      requires Valid() && !ComparesNull(objectPath[..currentDepth], path)
      ensures matches == MatchesPath(objectPath[..currentDepth], Key(finalName), path)
    {
      var i := 0;
      while i < currentDepth
        invariant 0 <= i <= currentDepth && i <= |path|
        invariant forall k :: 0 <= k < i ==> Clip(objectPath[k]) == Clip(path[k])
      {
        assert i < |path|;
        if Clip(objectPath[i]) != Clip(path[i]) {
          assert objectPath[..currentDepth][i] == objectPath[i];
          return false;
        }
        i := i + 1;
      }
      return Clip(if finalName.None? then "" else finalName.value) == Clip(path[currentDepth]);
    }

    method CompareAPath(name: Option<string>, paths: seq<seq<string>>) returns (matches: bool)
      requires Valid() && !ComparesNullIn(objectPath[..currentDepth], Key(name), paths)
      ensures matches == MatchesAPath(objectPath[..currentDepth], Key(name), paths)
    {
      hide MatchesPath, ComparesNull;
      var i := 0;
      while i < |paths|
        invariant 0 <= i <= |paths|
        invariant forall k :: 0 <= k < i ==> !MatchesPath(objectPath[..currentDepth], Key(name), paths[k])
      {
        matches := ComparePath(paths[i], name);
        if matches {
          return true;
        }
        i := i + 1;
      }
      return false;
    }

    method OnBooleanElement(name: Option<string>, value: bool) returns (status: Status)
      requires Valid()
      modifies encodeContext`out, encodeContext`containerFirstEntry
      ensures Valid() && FixResult(Model(), status) == OnEvent(libc, old(Model()), Scalar(name, BoolV(value)))
    {
      hide Call, MatchesAPath;
      status := encodeContext.AddBooleanElement(name, value);
    }

    method OnNullElement(name: Option<string>) returns (status: Status)
      requires Valid()
      modifies encodeContext`out, encodeContext`containerFirstEntry
      ensures Valid() && FixResult(Model(), status) == OnEvent(libc, old(Model()), Scalar(name, NullV))
    {
      hide Call, MatchesAPath;
      status := encodeContext.AddNullElement(name);
    }

    method OnUnsignedIntegerElement(name: Option<string>, value: nat) returns (status: Status)
      requires Valid() && value <= UINT64_MAX
      modifies encodeContext`out, encodeContext`containerFirstEntry
      ensures Valid() && FixResult(Model(), status) == OnEvent(libc, old(Model()), Scalar(name, UIntV(value)))
    {
      hide Call, MatchesAPath;
      status := encodeContext.AddUIntegerElement(name, value);
    }

    method OnFloatingPointElement(name: Option<string>, negative: bool, digits: string) returns (status: Status)
      requires Valid()
      modifies encodeContext`out, encodeContext`containerFirstEntry
      ensures Valid()
              && FixResult(Model(), status) == OnEvent(libc, old(Model()), Scalar(name, FloatV(negative, digits)))
    {
      hide Call, MatchesAPath;
      var respelled := libc.reformat(negative, digits);
      status := encodeContext.AddFloatingPointElement(name, respelled.0, respelled.1);
    }

    method MeetsMinVersion(major: int, minor: int, patch: int) returns (result: bool)
      requires reportVersionComponents.Length == 3
      ensures result == MatchesMinVersion(Version3(), major, minor, patch)
    {
      var parts := reportVersionComponents;
      result := parts[0] > major;
      result := result || (parts[0] == major && parts[1] > minor);
      result := result || (parts[0] == major && parts[1] == minor && parts[2] >= patch);
    }

    method OnIntegerElement(name: Option<string>, value: int) returns (status: Status)
      requires Valid() && INT64_MIN <= value <= INT64_MAX && !PassesNull(Model(), Scalar(name, IntV(value)))
      modifies encodeContext`out, encodeContext`containerFirstEntry
      ensures Valid() && FixResult(Model(), status) == OnEvent(libc, old(Model()), Scalar(name, IntV(value)))
    {
      hide Call, MatchesAPath, MatchesMinVersion, ComparesNullIn;
      var shouldFixDate := CompareAPath(name, DATE_PATHS);
      if shouldFixDate {
        var inMicroseconds := MeetsMinVersion(3, 3, 0);
        status := encodeContext.AddStringElement(name, Some(libc.date(inMicroseconds, value)));
      } else {
        status := encodeContext.AddIntegerElement(name, value);
      }
    }

    /** The strtok loop: at most three components, the others 0. */
    method SaveVersion(value: string)
      requires reportVersionComponents.Length == 3
      modifies reportVersionComponents
      ensures Version3() == ParseVersion(libc, value)
    {
      forall i | 0 <= i < 3 {
        reportVersionComponents[i] := 0;
      }
      var parts := Tokens(value, "");
      var index := 0;
      while index < |parts| && index < 3
        invariant 0 <= index <= |parts| && index <= 3
        invariant forall k :: 0 <= k < 3 ==> reportVersionComponents[k] == if k < index then libc.atoi(parts[k]) else 0
      {
        reportVersionComponents[index] := libc.atoi(parts[index]);
        index := index + 1;
      }
    }

    method OnStringElement(name: Option<string>, value: string) returns (status: Status)
      requires Valid() && !PassesNull(Model(), Scalar(name, StrV(value)))
      modifies encodeContext`out, encodeContext`containerFirstEntry, reportVersionComponents
      ensures Valid() && FixResult(Model(), status) == OnEvent(libc, old(Model()), Scalar(name, StrV(value)))
    {
      hide Call, MatchesAPath, ParseVersion, ComparesNullIn;
      status := encodeContext.AddStringElement(name, Some(value));
      var shouldSaveVersion := CompareAPath(name, VERSION_PATHS);
      if shouldSaveVersion {
        SaveVersion(value);
      }
    }

    method OnBeginContainer(isObject: bool, name: Option<string>) returns (status: Status)
      requires Valid() && encodeContext.containerLevel <= currentDepth
      modifies this`currentDepth, objectPath, encodeContext, encodeContext.isObject
      ensures Valid() && FixResult(Model(), status) == OnEvent(libc, old(Model()), Begin(isObject, name))
      ensures status == Ok ==> encodeContext.containerLevel <= currentDepth
    {
      hide Clip, Key;
      ghost var was := Model();
      status := encodeContext.BeginContainer(isObject, name);
      LevelOf(was.enc, Begin(isObject, name));
      assert objectPath[..currentDepth] == was.path;
      var increased := IncreaseDepth(name);
      if !increased {
        return DataTooLong;
      }
    }

    static lemma LevelOf(e: Enc, ev: Event)
      requires ev.Begin?
      ensures Call(e, ev).status == Ok ==> |Call(e, ev).enc.stack| == |e.stack| + 1
    {
      ContainerText(e, ev.isObject, ev.name);
    }

    method OnEndContainer() returns (status: Status)
      requires Valid() && encodeContext.containerLevel <= currentDepth
      modifies this`currentDepth, encodeContext`containerLevel, encodeContext`containerFirstEntry, encodeContext`out
      ensures Valid() && FixResult(Model(), status) == OnEvent(libc, old(Model()), End)
      ensures encodeContext.containerLevel <= currentDepth
    {
      hide Call;
      ghost var was := Model();
      status := encodeContext.EndContainer();
      var decreased := DecreaseDepth();
      assert decreased ==> objectPath[..currentDepth] == was.path[..|was.path| - 1];
    }
  }
}
