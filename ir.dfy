// An abstract LLVM-like intermediate representation: just enough of types,
// values, instructions, functions, globals and modules for the mallocazam
// pass to be stated over.

module IR {

  /** A byte, and byte strings (what a `std::string` holds). */
  type Byte = b: int | 0 <= b < 256
  type Text = seq<Byte>

  /** IR types. Named structs are identified by their name, literal types by structure. */
  datatype Ty =
    | Void
    | Int(bits: nat)
    | Ptr(pointee: Ty)
    | Array(length: nat, elem: Ty)
    | Struct(name: string, fields: seq<Ty>)
    | FunctionTy(result: Ty, params: seq<Ty>)

  /** `i8` and the generic pointer `i8*`. */
  const I8: Ty := Int(8)
  const I8Ptr: Ty := Ptr(I8)

  /** The kind of instruction that defines a register value (what `isa<...>` inspects). */
  datatype Opcode = AllocaOp | BitCastOp | CallOp | OtherOp

  /** IR values: instruction results, arguments and constants. */
  datatype Value =
    | Reg(id: nat, ty: Ty, def: Opcode)     // the result of the instruction numbered `id`
    | Arg(index: nat, ty: Ty)               // a function argument
    | Global(name: string, valueType: Ty)   // the address of a pre-existing global
    | Null(ty: Ty)                          // a null pointer constant
    | StringStart(g: GlobalVariable)        // folded zero-index GEP: `i8*` to the first byte of `g`
    | ConstCast(of: Value, to: Ty)          // folded constant bitcast

  function TypeOf(v: Value): Ty {
    match v
    case Reg(_, ty, _) => ty
    case Arg(_, ty) => ty
    case Global(_, vt) => Ptr(vt)
    case Null(ty) => ty
    case StringStart(_) => I8Ptr
    case ConstCast(_, to) => to
  }

  /** Constants, which IRBuilder folds instead of emitting an instruction. */
  predicate IsConstant(v: Value) {
    v.Global? || v.Null? || v.StringStart? || v.ConstCast?
  }

  /** `isa<AllocaInst>(v)`: looks only at the value's own defining instruction. */
  predicate IsAllocaResult(v: Value) {
    v.Reg? && v.def == AllocaOp
  }

  /** Instructions. Every value-producing instruction carries its identity `id`. */
  datatype Inst =
    | Alloca(id: nat, allocatedType: Ty)
    | BitCast(id: nat, src: Value, dest: Ty)
    | Call(callee: nat, args: seq<Value>)   // `callee` indexes the module's functions
    | RetVoid
    | Other(id: nat, ty: Ty)                // loads, stores, other calls, terminators, ...

  datatype Block = Block(name: string, insts: seq<Inst>)

  datatype Linkage = ExternalLinkage | WeakODRLinkage | PrivateLinkage | InternalLinkage

  datatype FnAttr = NoInline | OptimizeNone

  datatype Function = Function(
    name: string,
    params: seq<Ty>,
    result: Ty,
    linkage: Linkage,
    attrs: set<FnAttr>,
    blocks: seq<Block>)

  /** A global variable. Its identity is the object's identity. */
  class GlobalVariable {
    const name: string
    const valueType: Ty
    const isConstant: bool
    const linkage: Linkage
    const alignment: nat
    const unnamedAddr: bool
    const initializer: Text

    constructor (name: string, valueType: Ty, isConstant: bool, linkage: Linkage,
                 alignment: nat, unnamedAddr: bool, initializer: Text)
      ensures this.name == name && this.valueType == valueType
      ensures this.isConstant == isConstant && this.linkage == linkage
      ensures this.alignment == alignment && this.unnamedAddr == unnamedAddr
      ensures this.initializer == initializer
    {
      this.name := name;
      this.valueType := valueType;
      this.isConstant := isConstant;
      this.linkage := linkage;
      this.alignment := alignment;
      this.unnamedAddr := unnamedAddr;
      this.initializer := initializer;
    }
  }

  /** An instruction refers only to existing functions (`callee < nf`) and allocated identities (`< top`). */
  predicate InstBelow(i: Inst, nf: nat, top: nat) {
    match i
    case Alloca(id, _) => id < top
    case BitCast(id, _, _) => id < top
    case Call(callee, _) => callee < nf
    case RetVoid => true
    case Other(id, _) => id < top
  }

  predicate BlockBelow(insts: seq<Inst>, nf: nat, top: nat) {
    forall k :: 0 <= k < |insts| ==> InstBelow(insts[k], nf, top)
  }

  /** The first instruction of a well-formed block, and the rest of it, are well formed. */
  lemma BlockBelowTail(insts: seq<Inst>, nf: nat, top: nat)
    requires BlockBelow(insts, nf, top) && insts != []
    ensures InstBelow(insts[0], nf, top) && BlockBelow(insts[1..], nf, top)
  {
    forall k | 0 <= k < |insts[1..]| ensures InstBelow(insts[1..][k], nf, top) {
      assert insts[1..][k] == insts[k + 1];
    }
  }

  predicate FunctionBelow(fn: Function, nf: nat, top: nat) {
    forall b :: 0 <= b < |fn.blocks| ==> BlockBelow(fn.blocks[b].insts, nf, top)
  }

  lemma FunctionBelowMono(fn: Function, nf: nat, top: nat, nf': nat, top': nat)
    requires FunctionBelow(fn, nf, top) && nf <= nf' && top <= top'
    ensures FunctionBelow(fn, nf', top')
  {
    forall b | 0 <= b < |fn.blocks| ensures BlockBelow(fn.blocks[b].insts, nf', top') {
      var insts := fn.blocks[b].insts;
      forall k | 0 <= k < |insts| ensures InstBelow(insts[k], nf', top') {
        assert InstBelow(insts[k], nf, top);
      }
    }
  }

  /** A module: its functions and globals, updated in place, and the supply of fresh identities. */
  class Module {
    var functions: seq<Function>
    var globals: seq<GlobalVariable>
    var nextId: nat

    /** The IR is well formed: calls target existing functions, identities were allocated. */
    ghost predicate Valid()
      reads this
    {
      forall f :: 0 <= f < |functions| ==> FunctionBelow(functions[f], |functions|, nextId)
    }

    constructor (functions: seq<Function>, globals: seq<GlobalVariable>, nextId: nat)
      ensures this.functions == functions && this.globals == globals && this.nextId == nextId
    {
      this.functions := functions;
      this.globals := globals;
      this.nextId := nextId;
    }
  }
}
