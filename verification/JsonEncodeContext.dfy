/** KSJSONEncodeContext: the encoder as the code has it, an object whose fields every
    call updates, shown to be the state machine of JsonEncoder. */
module JsonEncodeContext {
  import opened JsonText
  import opened JsonEncoder

  lemma EscapeSnoc(s: string, i: nat)
    requires i < |s|
    ensures Escape(s[..i + 1]) == Escape(s[..i]) + EscapeChar(s[i])
    ensures AllEscapable(s[..i + 1]) <==> AllEscapable(s[..i]) && Escapable(s[i])
    ensures !Escapable(s[i]) ==> !AllEscapable(s)
  {
    assert forall j :: 0 <= j <= i ==> s[..i + 1][j] == s[j];
    assert s[..i + 1] == s[..i] + [s[i]];
    EscapeConcat(s[..i], [s[i]]);
    assert Escape([s[i]]) == EscapeChar(s[i]) + Escape("");
  }

  /** The loops of appendEscapedString over a work buffer; the result is the number of
      bytes to hand on, or none for an unspellable character. */
  method FillWorkBuffer(chunk: string, work: array<char>) returns (length: nat, ok: bool)
    requires |chunk| <= MAX_CHUNK && work.Length == WORK_BUFFER_SIZE
    modifies work
    ensures ok == AllEscapable(chunk)
    ensures ok ==> length <= work.Length && work[..length] == Escape(chunk)
  {
    hide Escape, AllEscapable, EscapeChar, Escapable;
    var src: nat, dst: nat := 0, 0;
    while src < |chunk| && Plain(chunk[src])
      invariant src == dst <= |chunk|
      invariant work[..dst] == chunk[..src]
      invariant forall i :: 0 <= i < src ==> Plain(chunk[i])
    {
      work[dst] := chunk[src];
      src, dst := src + 1, dst + 1;
    }
    PlainIsItself(chunk[..src]);
    while src < |chunk|
      invariant src <= |chunk| && dst <= 2 * src && dst <= work.Length
      invariant AllEscapable(chunk[..src]) && work[..dst] == Escape(chunk[..src])
    {
      var c := chunk[src];
      EscapeSnoc(chunk, src);
      if !Escapable(c) {
        return 0, false;
      }
      var spelled := EscapeChar(c);
      work[dst] := spelled[0];
      if |spelled| == 2 {
        work[dst + 1] := spelled[1];
      }
      assert work[..dst + |spelled|] == work[..dst] + spelled;
      src, dst := src + 1, dst + |spelled|;
    }
    assert chunk[..src] == chunk;
    return dst, true;
  }

  class EncodeContext {
    var containerLevel: nat
    const isObject: array<bool>
    var containerFirstEntry: bool
    var prettyPrint: bool
    /** What the data handler accepted, and what it will refuse to exceed. */
    var out: string
    const limit: Option<nat>

    ghost predicate Valid()
      reads this, isObject
    {
      isObject.Length == MAX_LEVELS && containerLevel < MAX_LEVELS && !isObject[0]
    }

    ghost function Model(): Enc
      reads this, isObject
      requires Valid()
    {
      Enc(isObject[1..containerLevel + 1], containerFirstEntry, prettyPrint, out, limit)
    }

    constructor BeginEncode(pretty: bool, limit: Option<nat>)
      ensures Valid() && fresh(isObject) && Model() == JsonEncoder.BeginEncode(pretty, limit)
    {
      containerLevel := 0;
      isObject := new bool[MAX_LEVELS](_ => false);
      containerFirstEntry := true;
      prettyPrint := pretty;
      out := "";
      this.limit := limit;
    }

    method AddJsonData(data: string) returns (status: Status)
      requires Valid()
      modifies this`out
      ensures Valid() && EncResult(Model(), status) == Emit(old(Model()), data)
    {
      if limit.Some? && |out| + |data| > limit.value {
        return DataTooLong;
      }
      out := out + data;
      return Ok;
    }

    method AppendEscapedString(chunk: string) returns (status: Status)
      requires Valid() && |chunk| <= MAX_CHUNK
      modifies this`out
      ensures Valid() && EncResult(Model(), status) == AppendEscaped(old(Model()), chunk)
    {
      var work := new char[WORK_BUFFER_SIZE];
      var length, ok := FillWorkBuffer(chunk, work);
      if !ok {
        return InvalidCharacter;
      }
      status := AddJsonData(work[..length]);
    }

    method AddEscapedString(s: string) returns (status: Status)
      requires Valid()
      modifies this`out
      ensures Valid() && EncResult(Model(), status) == AddEscaped(old(Model()), s)
    {
      hide AddEscaped, AppendEscaped;
      status := Ok;
      var offset := 0;
      assert s[0..] == s;
      while offset < |s|
        invariant Valid() && offset <= |s| && status == Ok
        invariant AddEscaped(old(Model()), s) == AddEscaped(Model(), s[offset..])
        decreases |s| - offset
      {
        var toAdd := |s| - offset;
        if toAdd > MAX_CHUNK {
          toAdd := MAX_CHUNK;
        }
        OneChunk(Model(), s, offset, toAdd);
        status := AppendEscapedString(s[offset..offset + toAdd]);
        if status != Ok {
          return;
        }
        offset := offset + toAdd;
      }
      assert AddEscaped(Model(), s[offset..]) == EncResult(Model(), Ok) by { NoChunk(Model(), s[offset..]); }
    }

    static lemma OneChunk(e: Enc, s: string, offset: nat, n: nat)
      requires offset < |s| && n == if |s| - offset > MAX_CHUNK then MAX_CHUNK else |s| - offset
      ensures var r := AppendEscaped(e, s[offset..offset + n]);
              AddEscaped(e, s[offset..]) == if r.status != Ok then r else AddEscaped(r.enc, s[offset + n..])
    {
      hide AppendEscaped;
      assert s[offset..][..n] == s[offset..offset + n] && s[offset..][n..] == s[offset + n..];
    }

    static lemma NoChunk(e: Enc, s: string)
      requires s == ""
      ensures AddEscaped(e, s) == EncResult(e, Ok)
    {
    }

    method AddQuotedEscapedString(s: string) returns (status: Status)
      requires Valid()
      modifies this`out
      ensures Valid() && EncResult(Model(), status) == AddQuoted(old(Model()), s)
    {
      status := AddJsonData("\"");
      if status != Ok {
        return;
      }
      var result := AddEscapedString(s);
      // Always close the string, even if writing its content failed.
      var closeResult := AddJsonData("\"");
      status := if result == Ok && closeResult == Ok then Ok else InvalidCharacter;
    }

    method AddIndent(levels: nat) returns (status: Status)
      requires Valid()
      modifies this`out
      ensures Valid() && EncResult(Model(), status) == EmitIndent(old(Model()), levels)
    {
      status := Ok;
      for i := 0 to levels
        invariant Valid() && status == Ok
        invariant EmitIndent(old(Model()), levels) == EmitIndent(Model(), levels - i)
      {
        status := AddJsonData("    ");
        if status != Ok {
          return;
        }
      }
    }

    method BeginElement(name: Option<string>) returns (status: Status)
      requires Valid()
      modifies this`out, this`containerFirstEntry
      ensures Valid() && EncResult(Model(), status) == JsonEncoder.BeginElement(old(Model()), name)
    {
      hide AddQuoted, EmitIndent;
      if containerFirstEntry {
        containerFirstEntry := false;
      } else {
        status := AddJsonData(",");
        if status != Ok {
          return;
        }
      }
      if prettyPrint && containerLevel > 0 {
        status := AddJsonData("\n");
        if status != Ok {
          return;
        }
        status := AddIndent(containerLevel);
        if status != Ok {
          return;
        }
      }
      status := AddNameField(name);
    }

    method AddNameField(name: Option<string>) returns (status: Status)
      requires Valid()
      modifies this`out
      ensures Valid() && EncResult(Model(), status) == AddName(old(Model()), name)
    {
      hide AddQuoted;
      if !isObject[containerLevel] {
        return Ok;
      }
      if name.None? {
        return InvalidData;
      }
      status := AddQuotedEscapedString(name.value);
      if status != Ok {
        return;
      }
      status := AddJsonData(if prettyPrint then ": " else ":");
    }

    method AddElement(name: Option<string>, text: string) returns (status: Status)
      requires Valid()
      modifies this`out, this`containerFirstEntry
      ensures Valid()
      ensures var b := JsonEncoder.BeginElement(old(Model()), name);
              EncResult(Model(), status) == if b.status != Ok then b else Emit(b.enc, text)
    {
      hide JsonEncoder.BeginElement;
      status := BeginElement(name);
      if status == Ok {
        status := AddJsonData(text);
      }
    }

    method AddBooleanElement(name: Option<string>, value: bool) returns (status: Status)
      requires Valid()
      modifies this`out, this`containerFirstEntry
      ensures Valid() && EncResult(Model(), status) == Call(old(Model()), Scalar(name, BoolV(value)))
    {
      hide JsonEncoder.BeginElement;
      status := AddElement(name, if value then "true" else "false");
    }

    method AddNullElement(name: Option<string>) returns (status: Status)
      requires Valid()
      modifies this`out, this`containerFirstEntry
      ensures Valid() && EncResult(Model(), status) == Call(old(Model()), Scalar(name, NullV))
    {
      hide JsonEncoder.BeginElement;
      status := AddElement(name, "null");
    }

    method AddIntegerElement(name: Option<string>, value: int) returns (status: Status)
      requires Valid() && INT64_MIN <= value <= INT64_MAX
      modifies this`out, this`containerFirstEntry
      ensures Valid() && EncResult(Model(), status) == Call(old(Model()), Scalar(name, IntV(value)))
    {
      hide JsonEncoder.BeginElement;
      status := AddElement(name, IntText(value));
    }

    method AddUIntegerElement(name: Option<string>, value: nat) returns (status: Status)
      requires Valid() && value <= UINT64_MAX
      modifies this`out, this`containerFirstEntry
      ensures Valid() && EncResult(Model(), status) == Call(old(Model()), Scalar(name, UIntV(value)))
    {
      hide JsonEncoder.BeginElement;
      status := AddElement(name, Digits(value));
    }

    /** The spelling of the double is the C library's. */
    method AddFloatingPointElement(name: Option<string>, negative: bool, digits: string) returns (status: Status)
      requires Valid()
      modifies this`out, this`containerFirstEntry
      ensures Valid() && EncResult(Model(), status) == Call(old(Model()), Scalar(name, FloatV(negative, digits)))
    {
      hide JsonEncoder.BeginElement;
      status := AddElement(name, (if negative then "-" else "") + digits);
    }

    method AddStringElement(name: Option<string>, value: Option<string>) returns (status: Status)
      requires Valid()
      modifies this`out, this`containerFirstEntry
      ensures Valid()
      ensures EncResult(Model(), status) ==
              Call(old(Model()), Scalar(name, if value.Some? then StrV(value.value) else NullV))
    {
      hide JsonEncoder.BeginElement, AddQuoted;
      if value.None? {
        status := AddNullElement(name);
        return;
      }
      status := BeginElement(name);
      if status == Ok {
        status := AddQuotedEscapedString(value.value);
      }
    }

    method BeginContainer(asObject: bool, name: Option<string>) returns (status: Status)
      requires Valid() && containerLevel + 1 < MAX_LEVELS
      modifies this`containerLevel, this`containerFirstEntry, this`out, isObject
      ensures Valid() && EncResult(Model(), status) == Call(old(Model()), Begin(asObject, name))
    {
      hide JsonEncoder.BeginElement;
      status := BeginElement(name);
      if status != Ok {
        return;
      }
      ghost var begun := Model();
      containerLevel := containerLevel + 1;
      isObject[containerLevel] := asObject;
      containerFirstEntry := true;
      assert Model().stack == begun.stack + [asObject];
      status := AddJsonData(if asObject then "{" else "[");
    }

    method EndContainer() returns (status: Status)
      requires Valid()
      modifies this`containerLevel, this`containerFirstEntry, this`out
      ensures Valid() && EncResult(Model(), status) == Call(old(Model()), End)
      ensures containerLevel == if old(containerLevel) == 0 then 0 else old(containerLevel) - 1
    {
      if containerLevel == 0 {
        return Ok;
      }
      var wasObject := isObject[containerLevel];
      containerLevel := containerLevel - 1;
      assert Model().stack == old(Model()).stack[..containerLevel];
      if prettyPrint && !containerFirstEntry {
        status := AddJsonData("\n");
        if status != Ok {
          return;
        }
        status := AddIndent(containerLevel);
        if status != Ok {
          return;
        }
      }
      containerFirstEntry := false;
      status := AddJsonData(if wasObject then "}" else "]");
    }

    method EndEncode() returns (status: Status)
      requires Valid()
      modifies this`containerLevel, this`containerFirstEntry, this`out
      ensures Valid() && EncResult(Model(), status) == JsonEncoder.EndEncode(old(Model()))
    {
      hide JsonEncoder.EndContainer;
      status := Ok;
      while containerLevel > 0
        invariant Valid() && status == Ok
        invariant JsonEncoder.EndEncode(old(Model())) == JsonEncoder.EndEncode(Model())
        decreases containerLevel
      {
        status := EndContainer();
        if status != Ok {
          return;
        }
      }
    }
  }
}
