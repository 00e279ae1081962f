/** Which imported functions of the official metadata are emitted as plain system
    calls, and what the emitter makes of their arguments.
 */
module PInvoke {
  import opened Options
  import opened Statuses
  import Strings

  datatype Kind = Primitive | Pointer | NativeTypedef | FixedArray | Struct | Union | OpaqueKind | OtherKind

  datatype Type = Type(kind: Kind, nativeName: string, goType: string, pointerDepth: int, bits: int, opaque_: bool, element: Option<Type>)

  datatype Parameter = Parameter(name: string, valueType: Type)

  datatype Function = Function(
    dll: string, entryPoint: string, callingConvention: string, varArgs: bool, parameters: seq<Parameter>, result: Type,
    setLastError: bool)

  datatype Backend = PureGoSyscall | PureGoSyscallFloat | CgoBridge

  /** Any of the function's values, its result included. */
  predicate AnyValue(f: Function, such: Type -> bool) {
    such(f.result) || exists i :: 0 <= i < |f.parameters| && such(f.parameters[i].valueType)
  }

  // ---- capability ----

  predicate IsFloat(t: Type) {
    t.goType == "float32" || t.goType == "float64"
  }

  predicate IsAggregate(t: Type) {
    (t.kind.Struct? || t.kind.Union?) && t.pointerDepth == 0
  }

  function Capability(f: Function): Backend {
    if f.varArgs || f.callingConvention == "vectorcall" || f.callingConvention == "thiscall" then CgoBridge
    else if AnyValue(f, IsAggregate) then CgoBridge
    else if AnyValue(f, IsFloat) then PureGoSyscallFloat
    else PureGoSyscall
  }

  method ComputeCapability(f: Function) returns (b: Backend)
    ensures b == Capability(f)
  {
    if f.varArgs {
      return CgoBridge;
    }
    if f.callingConvention == "vectorcall" || f.callingConvention == "thiscall" {
      return CgoBridge;
    }
    var hasFloat, complex := IsFloat(f.result), IsAggregate(f.result);
    for i := 0 to |f.parameters|
      invariant hasFloat <==> IsFloat(f.result) || exists k :: 0 <= k < i && IsFloat(f.parameters[k].valueType)
      invariant complex <==> IsAggregate(f.result) || exists k :: 0 <= k < i && IsAggregate(f.parameters[k].valueType)
    {
      hasFloat := hasFloat || IsFloat(f.parameters[i].valueType);
      complex := complex || IsAggregate(f.parameters[i].valueType);
    }
    b := if complex then CgoBridge else if hasFloat then PureGoSyscallFloat else PureGoSyscall;
  }

  // ---- safety ----

  predicate IsPointerValue(t: Type) {
    t.kind.Pointer? || t.pointerDepth > 0 || "*" <= t.goType || t.goType == "unsafe.Pointer"
  }

  predicate IsWideScalar(t: Type) {
    t.kind.Primitive? && t.pointerDepth == 0 && (t.goType == "int64" || t.goType == "uint64")
  }

  const WORD_NAMES: seq<string> := ["int8", "uint8", "int16", "uint16", "int32", "uint32", "uintptr", "winabi.INT_PTR"]

  predicate IsSafePointerElement(t: Type) {
    !t.opaque_ &&
    if t.kind.Pointer? then t.element.Some? && IsSafePointerElement(t.element.value)
    else t.kind.Primitive? && (t.goType == "" || t.goType in WORD_NAMES || t.goType in ["int64", "uint64", "*uint16"])
  }

  predicate IsSafeWord(t: Type, allowVoid: bool) {
    !t.opaque_ && t.bits <= 64 &&
    if t.kind.Pointer? then t.element.Some? && IsSafePointerElement(t.element.value)
    else t.kind.Primitive? &&
         if t.goType == "" then allowVoid && t.nativeName == "void" else t.goType in WORD_NAMES || t.goType == "*uint16"
  }

  predicate IsDllChar(c: char) {
    'a' <= c <= 'z' || 'A' <= c <= 'Z' || '0' <= c <= '9' || c == '-' || c == '_' || c == '.'
  }

  predicate IsSafeDll(name: string) {
    && 5 <= |name| <= 255 && Strings.ToLower(name[|name| - 4..]) == ".dll" && !Strings.Contains(name, "..")
    && forall i :: 0 <= i < |name| ==> IsDllChar(name[i])
  }

  predicate IsKernelDll(dll: string) {
    var d := Strings.ToLower(dll);
    Strings.Contains(d, "ntoskrnl") || Strings.Contains(d, "hal.dll") || Strings.Contains(d, "ndis.sys") || Strings.HasSuffix(d, ".sys")
  }

  predicate IsSafeCall(f: Function) {
    && f.dll != "" && f.entryPoint != "" && IsSafeDll(f.dll)
    && (f.callingConvention == "platform" || f.callingConvention == "stdcall")
    && IsSafeWord(f.result, true)
    && forall i :: 0 <= i < |f.parameters| ==> IsSafeWord(f.parameters[i].valueType, false)
  }

  // ---- classification ----

  /** A method of the metadata; the signature may have failed to parse, and the
      method may not be an import. */
  datatype Method = Method(function_: Function, parsed: bool, imported: bool, fromWdk: bool)

  function Classify(m: Method): Status {
    if !m.parsed then SourceParseError
    else if !m.imported then UnsupportedProjection
    else
      var f := m.function_;
      var candidate := Capability(f);
      if m.fromWdk && IsKernelDll(f.dll) then KernelModeOnly
      else if candidate.PureGoSyscall? && AnyValue(f, IsPointerValue) then UnsupportedProjection
      else if candidate.PureGoSyscall? && AnyValue(f, IsWideScalar) then UnsupportedGoAbi
      else if candidate.PureGoSyscall? && IsSafeCall(f) then GeneratedPureGo
      else if candidate.PureGoSyscall? then UnsupportedProjection
      else UnsupportedGoAbi
  }

  // ---- what is generated ----

  /** A value that fills one machine word of any supported architecture. */
  predicate IsOneWord(t: Type) {
    !t.opaque_ && t.bits <= 64 && t.kind.Primitive? && t.pointerDepth <= 0 && t.goType in WORD_NAMES
  }

  predicate IsVoid(t: Type) {
    !t.opaque_ && t.bits <= 64 && t.kind.Primitive? && t.pointerDepth <= 0 && t.goType == "" && t.nativeName == "void"
  }

  /** How many bytes a Go value of this name takes on 386. */
  function SizeOn386(goType: string): Option<nat> {
    if goType in ["int8", "uint8"] then Some(1)
    else if goType in ["int16", "uint16"] then Some(2)
    else if goType in ["int32", "uint32", "float32", "uintptr", "winabi.INT_PTR", "unsafe.Pointer", "*uint16"] then Some(4)
    else if goType in ["int64", "uint64", "float64"] then Some(8)
    else None
  }

  lemma OneWordIsSmall(t: Type)
    requires IsOneWord(t)
    ensures SizeOn386(t.goType).Some? && SizeOn386(t.goType).value <= 4 && !IsFloat(t) && !IsPointerValue(t) && !IsWideScalar(t)
  {
    var i :| 0 <= i < |WORD_NAMES| && WORD_NAMES[i] == t.goType;
    assert t.goType[0] != '*';
  }

  lemma SafeIsOneWord(t: Type, allowVoid: bool)
    ensures IsSafeWord(t, allowVoid) && !IsPointerValue(t) <==> IsOneWord(t) || (allowVoid && IsVoid(t))
  {
    assert "*" <= "*uint16" by {
      assert "*uint16"[0] == '*';
    }
    if t.goType in WORD_NAMES {
      var i :| 0 <= i < |WORD_NAMES| && WORD_NAMES[i] == t.goType;
      assert t.goType[0] != '*' && t.goType != "" && t.goType != "unsafe.Pointer";
    }
  }

  /** Exactly the parsed imports from user-mode DLLs, called by platform or stdcall
      convention without varargs, whose every value is one machine word, are
      generated. */
  lemma GeneratedExactly(m: Method)
    ensures var f := m.function_;
      Classify(m).GeneratedPureGo? <==>
        && m.parsed && m.imported && !(m.fromWdk && IsKernelDll(f.dll))
        && f.entryPoint != "" && IsSafeDll(f.dll) && !f.varArgs
        && (f.callingConvention == "platform" || f.callingConvention == "stdcall")
        && (IsOneWord(f.result) || IsVoid(f.result))
        && forall i :: 0 <= i < |f.parameters| ==> IsOneWord(f.parameters[i].valueType)
  {
    hide IsKernelDll, IsSafeDll, IsOneWord, IsSafeWord, IsPointerValue, IsWideScalar, IsFloat, IsAggregate, IsVoid;
    var f := m.function_;
    assert f.dll == "" ==> !IsSafeDll(f.dll) by { NoDll(f.dll); }
    SafeIsOneWord(f.result, true);
    WordsAreCapable(f.result);
    forall i | 0 <= i < |f.parameters|
      ensures IsSafeWord(f.parameters[i].valueType, false) && !IsPointerValue(f.parameters[i].valueType) <==> IsOneWord(f.parameters[i].valueType)
      ensures IsOneWord(f.parameters[i].valueType) ==>
        !IsWideScalar(f.parameters[i].valueType) && !IsFloat(f.parameters[i].valueType) && !IsAggregate(f.parameters[i].valueType)
    {
      SafeIsOneWord(f.parameters[i].valueType, false);
      WordsAreCapable(f.parameters[i].valueType);
    }
  }

  lemma NoDll(dll: string)
    ensures IsSafeDll(dll) ==> dll != ""
  {
  }

  lemma WordsAreCapable(t: Type)
    ensures IsOneWord(t) || IsVoid(t) ==> !IsWideScalar(t) && !IsFloat(t) && !IsAggregate(t)
  {
    if IsOneWord(t) {
      OneWordIsSmall(t);
    }
  }

  // ---- emission ----

  /** An argument of the emitted call: the value converted, or a pointer's address
      taken. */
  datatype Argument = Converted(name: string) | Address(name: string)

  /** The emitter's own test for pointers. */
  predicate IsPointerType(t: Type) {
    t.pointerDepth > 0 || "*" <= t.goType || t.goType == "unsafe.Pointer"
  }

  function CallArg(p: Parameter): Argument {
    if IsPointerType(p.valueType) then Address(p.name) else Converted(p.name)
  }

  function Arguments(parameters: seq<Parameter>): seq<Argument> {
    seq(|parameters|, i requires 0 <= i < |parameters| => CallArg(parameters[i]))
  }

  datatype Wrapper = Wrapper(arguments: seq<Argument>, usesPointers: bool)

  method RenderCall(f: Function) returns (w: Wrapper)
    ensures w.arguments == Arguments(f.parameters)
    ensures w.usesPointers <==> exists i :: 0 <= i < |f.parameters| && IsPointerType(f.parameters[i].valueType)
  {
    var args: seq<Argument>, ptrs := [], false;
    for i := 0 to |f.parameters|
      invariant args == Arguments(f.parameters[..i])
      invariant ptrs <==> exists k :: 0 <= k < i && IsPointerType(f.parameters[k].valueType)
    {
      var p := f.parameters[i];
      args := args + [CallArg(p)];
      if IsPointerType(p.valueType) {
        ptrs := true;
      }
    }
    assert f.parameters[..|f.parameters|] == f.parameters;
    w := Wrapper(args, ptrs);
  }

  /** The emitted call of a generated function passes every parameter as one machine
      word, converted, and touches no pointer. */
  lemma GeneratedCallsAreWords(m: Method, i: nat)
    requires Classify(m).GeneratedPureGo? && i < |m.function_.parameters|
    ensures var p := m.function_.parameters[i];
      && Arguments(m.function_.parameters)[i] == Converted(p.name)
      && SizeOn386(p.valueType.goType).Some? && SizeOn386(p.valueType.goType).value <= 4
      && !IsFloat(p.valueType) && !IsPointerType(p.valueType)
  {
    GeneratedExactly(m);
    OneWordIsSmall(m.function_.parameters[i].valueType);
  }
}
