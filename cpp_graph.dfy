/** The C++ AD graph container (cpp_graph): a function name, two counts and
    five append-only vectors describing an operator graph. Constants are
    kept as `real` (floating point is not modelled) and graph operators as
    their enumeration codes. */
module CppGraph {

  /** The whole content of a graph object. */
  datatype Graph = Graph(
    functionName: string,
    atomicNameVec: seq<string>,
    nDynamicInd: nat,
    nIndependent: nat,
    constantVec: seq<real>,
    operatorVec: seq<nat>,
    operatorArg: seq<nat>,
    dependentVec: seq<nat>)

  /** The content initialize leaves: empty name, zero counts, empty vectors. */
  const Empty: Graph := Graph("", [], 0, 0, [], [], [], [])

  class CppGraph {
    var functionName: string
    var atomicNameVec: seq<string>
    var nDynamicInd: nat
    var nIndependent: nat
    var constantVec: seq<real>
    var operatorVec: seq<nat>
    var operatorArg: seq<nat>
    var dependentVec: seq<nat>

    /** The object's content as a value. */
    function Data(): Graph
      reads this
    {
      Graph(functionName, atomicNameVec, nDynamicInd, nIndependent,
            constantVec, operatorVec, operatorArg, dependentVec)
    }

    /** Position of the first operator, where iteration starts (begin). */
    function Begin(): (r: nat)
      reads this
      ensures r == 0
    {
      0
    }

    /** Position one past the last operator, where iteration stops (end). */
    function End(): (r: nat)
      reads this
      ensures r == |Data().operatorVec|
    {
      |operatorVec|
    }

    /** The constructor initializes the object. */
    constructor ()
      ensures Data() == Empty && Begin() == End()
    {
      new;
      Initialize();
    }

    /** initialize: empty name, zero counts, all five vectors empty, so the
        operator range is empty. */
    method Initialize()
      modifies this
      ensures Data() == Empty && Begin() == End()
    {
      functionName := "";
      nDynamicInd := 0;
      nIndependent := 0;
      atomicNameVec := [];
      constantVec := [];
      operatorVec := [];
      operatorArg := [];
      dependentVec := [];
    }

    // -------------------------------------------------------------------
    // Scalars

    /** The stored functionName; the matching set method reads back through it. */
    function FunctionNameGet(): (r: string)
      reads this
      ensures r == Data().functionName
    {
      functionName
    }

    method FunctionNameSet(name: string)
      modifies this
      ensures FunctionNameGet() == name
      ensures Data() == old(Data()).(functionName := name)
    {
      functionName := name;
    }

    /** The stored nDynamicInd; the matching set method reads back through it. */
    function NDynamicIndGet(): (r: nat)
      reads this
      ensures r == Data().nDynamicInd
    {
      nDynamicInd
    }

    method NDynamicIndSet(n: nat)
      modifies this
      ensures NDynamicIndGet() == n
      ensures Data() == old(Data()).(nDynamicInd := n)
    {
      nDynamicInd := n;
    }

    /** The stored nIndependent; the matching set method reads back through it. */
    function NIndependentGet(): (r: nat)
      reads this
      ensures r == Data().nIndependent
    {
      nIndependent
    }

    method NIndependentSet(n: nat)
      modifies this
      ensures NIndependentGet() == n
      ensures Data() == old(Data()).(nIndependent := n)
    {
      nIndependent := n;
    }

    // -------------------------------------------------------------------
    // Vectors: size, get and push_back

    /** Number of elements of atomicNameVec. */
    function AtomicNameVecSize(): (r: nat)
      reads this
      ensures r == |Data().atomicNameVec|
    {
      |atomicNameVec|
    }

    /** Element `index` of atomicNameVec; push_back reads back through it. */
    function AtomicNameVecGet(index: nat): (r: string)
      reads this
      requires index < AtomicNameVecSize()
      ensures r == Data().atomicNameVec[index]
    {
      atomicNameVec[index]
    }

    method AtomicNameVecPushBack(name: string)
      modifies this
      ensures AtomicNameVecSize() == old(AtomicNameVecSize()) + 1
      ensures AtomicNameVecGet(old(AtomicNameVecSize())) == name
      ensures Data() == old(Data()).(atomicNameVec := old(atomicNameVec) + [name])
    {
      atomicNameVec := atomicNameVec + [name];
    }

    /** Number of elements of constantVec. */
    function ConstantVecSize(): (r: nat)
      reads this
      ensures r == |Data().constantVec|
    {
      |constantVec|
    }

    /** Element `index` of constantVec; push_back reads back through it. */
    function ConstantVecGet(index: nat): (r: real)
      reads this
      requires index < ConstantVecSize()
      ensures r == Data().constantVec[index]
    {
      constantVec[index]
    }

    method ConstantVecPushBack(constant: real)
      modifies this
      ensures ConstantVecSize() == old(ConstantVecSize()) + 1
      ensures ConstantVecGet(old(ConstantVecSize())) == constant
      ensures Data() == old(Data()).(constantVec := old(constantVec) + [constant])
    {
      constantVec := constantVec + [constant];
    }

    /** Number of elements of operatorVec. */
    function OperatorVecSize(): (r: nat)
      reads this
      ensures r == |Data().operatorVec|
    {
      |operatorVec|
    }

    /** Element `index` of operatorVec; push_back reads back through it. */
    function OperatorVecGet(index: nat): (r: nat)
      reads this
      requires index < OperatorVecSize()
      ensures r == Data().operatorVec[index]
    {
      operatorVec[index]
    }

    /** Appending an operator also moves the end of the operator range by one. */
    method OperatorVecPushBack(opEnum: nat)
      modifies this
      ensures OperatorVecSize() == old(OperatorVecSize()) + 1
      ensures OperatorVecGet(old(OperatorVecSize())) == opEnum
      ensures End() == old(End()) + 1 && Begin() == old(Begin())
      ensures Data() == old(Data()).(operatorVec := old(operatorVec) + [opEnum])
    {
      operatorVec := operatorVec + [opEnum];
    }

    /** Number of elements of operatorArg. */
    function OperatorArgSize(): (r: nat)
      reads this
      ensures r == |Data().operatorArg|
    {
      |operatorArg|
    }

    /** Element `index` of operatorArg; push_back reads back through it. */
    function OperatorArgGet(index: nat): (r: nat)
      reads this
      requires index < OperatorArgSize()
      ensures r == Data().operatorArg[index]
    {
      operatorArg[index]
    }

    method OperatorArgPushBack(argument: nat)
      modifies this
      ensures OperatorArgSize() == old(OperatorArgSize()) + 1
      ensures OperatorArgGet(old(OperatorArgSize())) == argument
      ensures Data() == old(Data()).(operatorArg := old(operatorArg) + [argument])
    {
      operatorArg := operatorArg + [argument];
    }

    /** Number of elements of dependentVec. */
    function DependentVecSize(): (r: nat)
      reads this
      ensures r == |Data().dependentVec|
    {
      |dependentVec|
    }

    /** Element `index` of dependentVec; push_back reads back through it. */
    function DependentVecGet(index: nat): (r: nat)
      reads this
      requires index < DependentVecSize()
      ensures r == Data().dependentVec[index]
    {
      dependentVec[index]
    }

    method DependentVecPushBack(nodeIndex: nat)
      modifies this
      ensures DependentVecSize() == old(DependentVecSize()) + 1
      ensures DependentVecGet(old(DependentVecSize())) == nodeIndex
      ensures Data() == old(Data()).(dependentVec := old(dependentVec) + [nodeIndex])
    {
      dependentVec := dependentVec + [nodeIndex];
    }
  }
}
