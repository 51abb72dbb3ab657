# CppAD value-graph tape, modelled in Dafny

This project models the core of CppAD's value-graph tape (`val_graph`). The
tape is a small SSA intermediate form held in three growable arrays:

- `op_vec_`: one `{arg_index, res_index, op}` record per operator invocation;
- `arg_vec_`: the operand words;
- `con_vec_`: the constant pool.

A counter `n_val_` gives the next free value index. The model covers the
following parts, each proved against a specification:

- **The recorder** (`set_ind`, `record_op`, `record_con_op`,
  `record_call_op`, `set_dep`). It is a class `ValGraph.Tape`. Every recorder
  keeps one invariant, `Recorded`:
  - result runs tile `[n_ind, n_val)`;
  - operand runs are chained in the operand array;
  - every value operand precedes its operator's results;
  - pool indices are in range;
  - dependents are below `n_val`.

  `set_ind` puts the not-a-number sentinel at `n_ind` (`SentinelFirst`).
- **Tape evaluation.** Each invocation's effect is `EvalOp`; running them all
  in order is `EvalAll`. This evaluation is proved to be the unique solution
  of the tape's equations (`EvalAllUnique`). It is also proved monotone in the
  information order in which not-a-number is the bottom. That is why
  evaluating with every slot preset to not-a-number detects constants
  (`NanPoisonSound`).
- **The call operator** (`call_op_t`). This covers its self-describing run
  `[n_arg, n_res, atomic_index, call_id, x...]`, the header readers, argument
  marshalling with result write-back, and the reverse-dependency query.
- **`tape_t::rev_depend`.** A reverse sweep gives every value a use class
  of 0, 1 or 2. Class 0 is proved to mean "neither a dependent nor read by
  an invocation in use", and class 1 "not a dependent and read exactly
  once" (`UseCaseClasses`, `UseCasesJustified`).
- **`tape_t::dead_code`.** It has two sweeps:
  - a reverse need-marking sweep;
  - a forward rebuild onto a fresh tape, through an old-to-new index table.

  After the rebuild, the dependents are translated and the fresh tape is
  swapped in.

  With the marking corrected (see "## Findings"), the rebuilt tape is
  proved to give every dependent the value it had
  (`DeadCodePreservesValues`), and a second pass over a tape without calls
  is proved to change nothing (`DeadCodeIdempotent`).
- **The prototype tape** (`ad_op/tape.hpp`), modelled with its add, sub and
  constant operators.
- **The prototype function-call operator** (`val_op/fun_op.hpp`), whose
  header has three words.
- **The `cpp_graph` container.**
- **A concrete atomic function.** It is `g(x) = [x0*x0, x0*x1, x1*x2, x2*x2]`,
  with its `for_type` and `rev_depend` callbacks. Its `rev_depend` is an
  instance of the reverse-dependency bridge the tape analyses consult.

Values are abstract: `Value = Nan | Num(int)`. Arithmetic is proved to
propagate `Nan`. The atomic-function bridges (zero-order forward and reverse
dependency) are function-typed parameters. A length predicate constrains
each one. The registered-function bridge of the prototype is handled the
same way.

Files:

| file | contents |
|---|---|
| `value.dfy` | values, NaN propagation, the information order, ad types |
| `runs.dfy` | gathering operands and scattering results |
| `op_kind.dfy` | operator kinds and their arities |
| `call_op.dfy` | the call operator |
| `record_op.dfy` | tape storage, the recorder invariant, evaluation, class `Tape` |
| `rev_depend.dfy` | `rev_depend` |
| `dead_code.dfy` | `dead_code` and its findings |
| `dead_code_semantics.dfy` | `dead_code` keeps the dependents' values |
| `dead_code_idempotence.dfy` | a second `dead_code` pass changes nothing on a tape without calls |
| `proto_tape.dfy` | the prototype tape |
| `fun_op.dfy` | the prototype function-call operator |
| `cpp_graph.dfy` | `cpp_graph` |
| `atomic_three.dfy` | the concrete atomic function |

## Model

| member | source | states |
|---|---|---|
| ValGraph.Tape.SetInd | include/cppad/local/val_graph/record_op.hpp:117-131 | returns `n`; `n_val` becomes `n + 1`; dependents, invocations and pool are emptied, then the NaN sentinel is loaded at `n`; `arg_vec_` is kept; the tape is well formed |
| ValGraph.Tape.RecordOp | include/cppad/local/val_graph/record_op.hpp:134-173 | returns the old `n_val` and advances it by 1; appends one invocation at the old operand length and the old `n_val`; copies both operands in order; keeps the invariant and the sentinel |
| ValGraph.Tape.RecordConOp | include/cppad/local/val_graph/record_op.hpp:176-204 | appends the constant to the pool; the sole operand word is its pool index; returns the old `n_val` and advances it by 1; keeps the invariant |
| ValGraph.Tape.RecordCallOp | include/cppad/local/val_graph/record_op.hpp:207-241 | appends the run `[4+|fun_arg|, n_res, atomic_index, call_id, fun_arg...]`; returns the old `n_val` and advances it by exactly `n_res`; keeps the invariant |
| ValGraph.Tape.RecordCompOp | include/cppad/local/val_graph/dead_code.hpp:307-316 | appends a comparison run `[tag, left, right]` with no result; keeps the invariant |
| ValGraph.Tape.SetDep | include/cppad/local/val_graph/record_op.hpp:244-247 | replaces the dependent vector wholesale and changes nothing else |
| ValGraph.Tape.Swap | include/cppad/local/val_graph/dead_code.hpp:365 | exchanges the whole storage of two tapes |
| ValGraph.AppendRecorded | include/cppad/local/val_graph/record_op.hpp:139-142 | appending a sound invocation whose results start at `n_val` keeps the tiling invariant |
| ValGraph.AppendBinaryRecorded | include/cppad/local/val_graph/record_op.hpp:160-170 | appending add/sub on existing values keeps the invariant |
| ValGraph.AppendConRecorded | include/cppad/local/val_graph/record_op.hpp:181-201 | appending a load of a new pool entry keeps the invariant, pool index in range |
| ValGraph.AppendCompRecorded | include/cppad/local/val_graph/dead_code.hpp:307-316 | appending a comparison on existing values keeps the invariant |
| ValGraph.AppendCallRecorded | include/cppad/local/val_graph/record_op.hpp:225-238 | appending a call run keeps the invariant; its header reads back |
| ValGraph.WithDepsRecorded | include/cppad/local/val_graph/record_op.hpp:244-247 | in-range dependents keep the invariant |
| ValGraph.Append | include/cppad/local/val_graph/record_op.hpp:139-142 | one invocation `{|arg_vec|, n_val, op}` is pushed; the run and the pool entries are appended; `n_val` grows by the invocation's result count; independents and dependents are unchanged |
| ValGraph.ResOrder | include/cppad/local/val_graph/call_op.hpp:91-94 | runs of earlier invocations end before those of later ones |
| ValGraph.ResBounds | include/cppad/local/val_graph/call_op.hpp:91-94 | every invocation's results lie in `[n_ind, n_val)`, and its operands lie in the operand array and below its results |
| ValGraph.FrontierStep | include/cppad/local/val_graph/record_op.hpp:139-142 | result runs tile `[n_ind, n_val)`, one run per invocation |
| ValGraph.EvalOp | ad_op/tape.hpp:110-122 | an invocation writes only its own result run |
| ValGraph.EvalOpLocal | ad_op/tape.hpp:110-122 | what an invocation writes depends only on the slots below its results |
| ValGraph.EvalUpToLocal | ad_op/tape.hpp:110-122 | after `i` invocations, slots below the frontier depend only on the independents |
| ValGraph.EvalDependsOnlyOnInputs | ad_op/tape.hpp:110-122 | evaluation is a function of the independent values alone |
| ValGraph.EvalOpMonotone | include/cppad/local/val_graph/rev_depend.hpp:69-75 | one invocation preserves the information order |
| ValGraph.EvalMonotone | include/cppad/local/val_graph/rev_depend.hpp:69-75 | evaluation preserves the information order (NaN is bottom) |
| ValGraph.EvalStepMonotone | include/cppad/local/val_graph/rev_depend.hpp:69-75 | one more step keeps two evaluations ordered |
| ValGraph.NanPoisonSound | include/cppad/local/val_graph/rev_depend.hpp:69-75 | a slot that is not NaN after the all-NaN evaluation has that value under every evaluation with a monotone bridge |
| ValGraph.EvalUpToStable | ad_op/tape.hpp:110-122 | later invocations never write below an earlier frontier |
| ValGraph.EvalUpTo | ad_op/tape.hpp:110-122 | the buffer after the first `i` invocations keeps its length; `EvalUpToStable` and `EvalUpToLocal` state what it holds |
| ValGraph.EvalAll | ad_op/tape.hpp:110-122 | the evaluated buffer keeps its length; `EvalAllUnique` characterises it as the one solution of the equations |
| ValGraph.NanValues | include/cppad/local/val_graph/rev_depend.hpp:69-75 | one known value per value index, from evaluating with every slot NaN; `NanPoisonSound` states what a non-NaN entry means |
| ValGraph.OpHoldsFrom | ad_op/tape.hpp:110-122 | a buffer that agrees with one run of an invocation up to the end of its results satisfies that invocation's equation |
| ValGraph.OpHoldsAfterEval | ad_op/tape.hpp:110-122 | after evaluation, every invocation's equation holds |
| ValGraph.EvalAllSolves | ad_op/tape.hpp:110-122 | evaluation keeps the independents and satisfies every equation |
| ValGraph.SolutionAgrees | ad_op/tape.hpp:110-122 | any solution agrees with the partial evaluation below each frontier |
| ValGraph.SolutionStep | ad_op/tape.hpp:110-122 | one invocation extends agreement with a solution by its result run |
| ValGraph.EvalAllUnique | ad_op/tape.hpp:110-122 | a buffer solves the tape's equations if and only if it is the evaluation |
| Values.Add | ad_op/tape.hpp:118-120 | the result is NaN iff an operand is NaN |
| Values.Sub | ad_op/tape.hpp:118-120 | the result is NaN iff an operand is NaN |
| Values.ArithMonotone | include/cppad/local/val_graph/rev_depend.hpp:69-75 | add and sub are monotone in the information order |
| Values.AllNanBelow | include/cppad/local/val_graph/rev_depend.hpp:69-72 | the all-NaN buffer is below every buffer |
| Values.MaxType | test_more/general/atomic_three.cpp:45-46 | std::max on ad types: one of the two, and at least as variable as both |
| Runs.Scatter | include/cppad/local/val_graph/call_op.hpp:239-240 | the run holds `y`; every other slot is unchanged |
| Runs.GatherLocal | include/cppad/local/val_graph/call_op.hpp:211-213 | gathered arguments depend only on the named slots |
| Runs.GatherMonotone | include/cppad/local/val_graph/call_op.hpp:211-213 | gathering preserves the information order |
| Runs.GatherArgs | include/cppad/local/val_graph/call_op.hpp:211-213 | builds `x[i-lo] = val[argVec[i]]` |
| Runs.ScatterResults | include/cppad/local/val_graph/call_op.hpp:239-240 | writes `y` into the result run and nothing else |
| Runs.SetAll | include/cppad/local/val_graph/rev_depend.hpp:81-82 | every named slot gets the value; no other slot changes |
| OpKinds.ArityExtend | include/cppad/local/val_graph/call_op.hpp:147-156 | arities read through a longer operand array are unchanged |
| OpKinds.OperandWords | include/cppad/local/val_graph/rev_depend.hpp:99-102 | `n_before` is the four header words for a call, one word (pool index or tag) for con and comp, none for add and sub; `n_after` is 0 for every kind; for a fixed-arity kind `n_before + n_after <= n_arg` |
| OpKinds.NAfter | include/cppad/local/val_graph/dead_code.hpp:186-187 | no operator kind has operand words after its value operands |
| OpKinds.NArg | include/cppad/local/val_graph/rev_depend.hpp:101-103 | add and sub have 2 operand words, con 1 and comp 3; a call's count is `4+|fun_arg|` read from a recorded run's header |
| OpKinds.NRes | include/cppad/local/val_graph/rev_depend.hpp:104-107 | only a comparison has no result; add, sub and con have exactly 1; a call's count is the `n_res` of its recorded run |
| CallOp.NArg | include/cppad/local/val_graph/call_op.hpp:147-151 | on a recorded call run, returns `4+|fun_arg|` |
| CallOp.NRes | include/cppad/local/val_graph/call_op.hpp:153-157 | on a recorded call run, returns the `n_res` it was recorded with |
| CallOp.AtomicIndex | include/cppad/local/val_graph/call_op.hpp:159-163 | on a recorded call run, returns the `atomic_index` it was recorded with |
| CallOp.CallId | include/cppad/local/val_graph/call_op.hpp:165-169 | on a recorded call run, returns the `call_id` it was recorded with |
| CallOp.HeaderRoundTrip | include/cppad/local/val_graph/call_op.hpp:143-168 | on a recorded run the readers return `4+|fun_arg|`, `n_res`, `atomic_index` and `call_id`, and the true arguments follow |
| CallOp.AllVariable | include/cppad/local/val_graph/call_op.hpp:216-218 | every argument type is variable |
| CallOp.AllSelected | include/cppad/local/val_graph/call_op.hpp:227-229 | every output is selected |
| CallOp.Inputs | include/cppad/local/val_graph/call_op.hpp:211-213 | `x` has length `n_arg-4` and `x[i-4] = val[arg_vec[arg_index+i]]` |
| CallOp.EvalCall | include/cppad/local/val_graph/call_op.hpp:194-241 | the result run holds the bridge outputs; every other slot is unchanged |
| CallOp.EvalCallLocal | include/cppad/local/val_graph/call_op.hpp:211-213 | call results depend only on the slots below the result run |
| CallOp.EvalCallMonotone | include/cppad/local/val_graph/call_op.hpp:194-241 | a monotone bridge makes the call monotone |
| CallOp.InputsKnown | include/cppad/local/val_graph/dead_code.hpp:190-196 | the inputs of a call carry the known values `con_x` of its arguments whenever the value buffer carries the known values of the tape |
| CallOp.PickBridgesHonest | include/cppad/local/val_graph/dead_code.hpp:204-210 | a reverse bridge that drops an argument because another argument is the known constant zero is honest about a monotone forward bridge; its flags would be wrong on inputs that do not carry that zero |
| CallOp.TypeX | include/cppad/local/val_graph/rev_depend.hpp:137-143 | a NaN known value means variable; anything else means constant |
| CallOp.DependX | include/cppad/local/val_graph/rev_depend.hpp:146-155 | one dependency flag per true argument |
| CallOp.RevDependX | include/cppad/local/val_graph/rev_depend.hpp:135-155 | the loop builds `con_x` and `type_x` and queries the bridge, matching `DependX` |
| CallOp.Eval | include/cppad/local/val_graph/call_op.hpp:194-241 | the in-place evaluation equals `EvalCall` |
| RevDependPass.CallDepend | include/cppad/local/val_graph/rev_depend.hpp:146-156 | call `j`'s header is well formed and the bridge returns one flag per true argument, for `depend_y` = which of its results are in use |
| RevDependPass.InitUse | include/cppad/local/val_graph/rev_depend.hpp:78-82 | one count per value: 2 at every dependent, 0 everywhere else |
| RevDependPass.Bump | include/cppad/local/val_graph/rev_depend.hpp:116-119 | a count becomes nonzero, at most 2, and never decreases |
| RevDependPass.BumpRun | include/cppad/local/val_graph/rev_depend.hpp:114-120 | every operand gets a nonzero count; only operand slots change; counts stay in 0..2 and grow |
| RevDependPass.BumpSelected | include/cppad/local/val_graph/rev_depend.hpp:158-166 | only arguments whose `depend_x` is set are promoted; counts stay in 0..2 and grow |
| RevDependPass.Used | include/cppad/local/val_graph/rev_depend.hpp:146-148 | `depend_y[i]` holds iff the count of `res_index+i` is nonzero |
| RevDependPass.OperandUse | include/cppad/local/val_graph/rev_depend.hpp:106-122 | slots at or above the result are unchanged; counts stay in 0..2 |
| RevDependPass.CallUse | include/cppad/local/val_graph/rev_depend.hpp:123-166 | slots at or above the results are unchanged; counts stay in 0..2 |
| RevDependPass.UseStep | include/cppad/local/val_graph/rev_depend.hpp:100-167 | touches only slots below the results; counts stay in 0..2 and grow |
| RevDependPass.UseStepEffect | include/cppad/local/val_graph/rev_depend.hpp:101-166 | a comparison or an unused single-result operator changes nothing; only operand words in `[n_before, n_arg-n_after)` are touched; counted operands become nonzero |
| RevDependPass.UseFromWithin | include/cppad/local/val_graph/rev_depend.hpp:78-82 | counts are 0, 1 or 2, and dependents stay 2 |
| RevDependPass.UseFromGrows | include/cppad/local/val_graph/rev_depend.hpp:116-119 | counts never decrease along the sweep |
| RevDependPass.UseFromFrame | include/cppad/local/val_graph/rev_depend.hpp:88-168 | a count at or above an invocation's results is final once it is processed |
| RevDependPass.UseCasesClosedAt | include/cppad/local/val_graph/rev_depend.hpp:106-166 | every in-use invocation's operands are in use in the final counts |
| RevDependPass.UseCasesSound | include/cppad/local/val_graph/rev_depend.hpp:77-168 | counts in 0..2; dependents are 2; whatever a used invocation reads is in use |
| RevDependPass.UseFrom | include/cppad/local/val_graph/rev_depend.hpp:88-168 | the counts once invocations `i` onward are processed: one per value index |
| RevDependPass.UseCases | include/cppad/local/val_graph/rev_depend.hpp:77-168 | the final counts: one per value index, each 0, 1 or 2, with every dependent 2 |
| RevDependPass.UseCasesCount | include/cppad/local/val_graph/rev_depend.hpp:106-166 | a dependent has class 2; any other value has class `min(2, uses)`, where a use is an operand word naming it in an invocation whose result is in use (for a call, an argument its in-use results depend on) |
| RevDependPass.UseCaseClasses | include/cppad/local/val_graph/rev_depend.hpp:77-168 | class 0 iff not a dependent and never used; class 1 iff not a dependent and used exactly once; class 2 iff a dependent or used at least twice |
| RevDependPass.UsesJustified | include/cppad/local/val_graph/rev_depend.hpp:106-166 | the use count is positive iff some counted operand word of some invocation names the value |
| RevDependPass.UseCasesJustified | include/cppad/local/val_graph/rev_depend.hpp:77-168 | a value's class is nonzero iff it is a dependent or an invocation whose result is in use reads it (a call through an argument its in-use results depend on) |
| RevDependPass.BumpOperands | include/cppad/local/val_graph/rev_depend.hpp:114-120 | the in-place loop equals `BumpRun` |
| RevDependPass.BumpDepend | include/cppad/local/val_graph/rev_depend.hpp:158-166 | the in-place loop equals `BumpSelected` |
| RevDependPass.InitCounts | include/cppad/local/val_graph/rev_depend.hpp:78-82 | a fresh array of length `n_val`: dependents 2, all others 0 |
| RevDependPass.SweepOperands | include/cppad/local/val_graph/rev_depend.hpp:106-122 | equals `OperandUse` |
| RevDependPass.UsedFlags | include/cppad/local/val_graph/rev_depend.hpp:146-148 | equals `Used` |
| RevDependPass.SweepCall | include/cppad/local/val_graph/rev_depend.hpp:123-166 | equals `CallUse` |
| RevDependPass.SweepOp | include/cppad/local/val_graph/rev_depend.hpp:90-167 | equals `UseStep` |
| RevDependPass.Sweep | include/cppad/local/val_graph/rev_depend.hpp:88-169 | the reverse loop computes `UseCases` |
| RevDependPass.RevDepend | include/cppad/local/val_graph/rev_depend.hpp:69-169 | equals `UseCases` on the all-NaN evaluation |
| DeadCodePass.InitNeed | include/cppad/local/val_graph/dead_code.hpp:101-106 | one flag per value, set exactly at the dependents |
| DeadCodePass.MarkRun | include/cppad/local/val_graph/dead_code.hpp:155-158 | every operand is marked; flags never clear; no other slot changes |
| DeadCodePass.SetSelected | include/cppad/local/val_graph/dead_code.hpp:213-216 | only argument slots change; when corrected, flags never clear and every `depend_x` input is marked |
| DeadCodePass.NeedDependX | include/cppad/local/val_graph/dead_code.hpp:200-210 | one flag per true argument, from the bridge given `depend_y` |
| DeadCodePass.BinaryNeed | include/cppad/local/val_graph/dead_code.hpp:148-159 | slots at or above the result are unchanged; flags never clear |
| DeadCodePass.CompNeed | include/cppad/local/val_graph/dead_code.hpp:171-173 | slots at or above the position are unchanged; flags never clear |
| DeadCodePass.CallNeed | include/cppad/local/val_graph/dead_code.hpp:181-217 | slots at or above the results are unchanged; when corrected, flags never clear |
| DeadCodePass.NeedStep | include/cppad/local/val_graph/dead_code.hpp:136-219 | touches only slots below the results; when corrected, flags never clear |
| DeadCodePass.NeedStepEffect | include/cppad/local/val_graph/dead_code.hpp:148-178 | con marks nothing, and as written neither does comp; a needed add/sub marks both operands, an unneeded one marks nothing; nothing outside the operands changes |
| DeadCodePass.NeedFromGrows | include/cppad/local/val_graph/dead_code.hpp:115-220 | corrected flags never clear along the sweep |
| DeadCodePass.NeedFromFrame | include/cppad/local/val_graph/dead_code.hpp:115-220 | a flag at or above an invocation's results is final once it is processed |
| DeadCodePass.StepMarksOperands | include/cppad/local/val_graph/dead_code.hpp:148-159 | a kept non-call invocation marks every value it reads |
| DeadCodePass.NeedsClosedAt | include/cppad/local/val_graph/dead_code.hpp:267-316 | with corrected marking, everything a kept non-call invocation reads is needed |
| DeadCodePass.NeedsClosed | include/cppad/local/val_graph/dead_code.hpp:101-220 | corrected flags cover the dependents and are closed under what kept invocations read |
| DeadCodePass.NeedFrom | include/cppad/local/val_graph/dead_code.hpp:115-220 | the need flags once invocations `i` onward are processed: one per value index |
| DeadCodePass.Needs | include/cppad/local/val_graph/dead_code.hpp:101-220 | the flags the reverse sweep leaves: one per value index |
| DeadCodePass.Kept | include/cppad/local/val_graph/dead_code.hpp:267-274 | an invocation with results is kept iff one of its results is needed; one without results iff `keep_compare` holds and its tag is not `compare_no` |
| DeadCodePass.FreshSetInd | include/cppad/local/val_graph/dead_code.hpp:223-224 | the fresh tape after `set_ind(n_ind)` is well formed, with `n_val = n_ind + 1` |
| DeadCodePass.Start | include/cppad/local/val_graph/dead_code.hpp:228-232 | `new_val_index` has length `n_val` |
| DeadCodePass.StartInv | include/cppad/local/val_graph/dead_code.hpp:223-232 | identity on `[0, n_ind]`, out-of-range marker `n_val` above; the forward sweep starts in its invariant |
| DeadCodePass.Renumber | include/cppad/local/val_graph/dead_code.hpp:350-351 | only the old result run is remapped |
| DeadCodePass.CallArgs | include/cppad/local/val_graph/dead_code.hpp:335-344 | one new argument per true argument |
| DeadCodePass.MapThrough | include/cppad/local/val_graph/dead_code.hpp:359-361 | one translated dependent per dependent |
| DeadCodePass.KeepStep | include/cppad/local/val_graph/dead_code.hpp:266-355 | one forward step keeps the length of `new_val_index` and the new tape's `n_ind`; `KeepStepInv` states what it keeps |
| DeadCodePass.RebuildUpTo | include/cppad/local/val_graph/dead_code.hpp:247-356 | the forward sweep over invocations `1..i-1` keeps the length of `new_val_index` and `n_ind`; `RebuildUpToInv` states its invariant |
| DeadCodePass.DeadCodeResult | include/cppad/local/val_graph/dead_code.hpp:223-365 | the rebuilt tape with translated dependents has the same `n_ind` and one dependent per old dependent; `DeadCodePreservesValues` and `DeadCodeIdempotent` state what it computes |
| DeadCodePass.AboveSentinel | include/cppad/local/val_graph/dead_code.hpp:247-250 | every invocation after the sentinel produces results above `n_ind` |
| DeadCodePass.OperandMaps | include/cppad/local/val_graph/dead_code.hpp:281-293 | a needed or independent operand maps into the new tape |
| DeadCodePass.DropInv | include/cppad/local/val_graph/dead_code.hpp:267-276 | dropping an unneeded invocation keeps the rebuild invariant |
| DeadCodePass.KeepBinaryInv | include/cppad/local/val_graph/dead_code.hpp:288-297 | re-recording add/sub through `new_val_index` keeps the invariant |
| DeadCodePass.KeepConInv | include/cppad/local/val_graph/dead_code.hpp:319-325 | re-recording the same pool value keeps the invariant |
| DeadCodePass.KeepCompInv | include/cppad/local/val_graph/dead_code.hpp:307-316 | re-recording a kept comparison keeps the invariant |
| DeadCodePass.CallArgsMap | include/cppad/local/val_graph/dead_code.hpp:336-344 | every new call argument is a value of the new tape (unneeded inputs map to the sentinel `n_ind`) |
| DeadCodePass.KeepCallInv | include/cppad/local/val_graph/dead_code.hpp:328-353 | re-recording a call and renumbering its results keeps the invariant |
| DeadCodePass.KeepStepInv | include/cppad/local/val_graph/dead_code.hpp:266-355 | one forward step keeps the invariant |
| DeadCodePass.RebuildUpToInv | include/cppad/local/val_graph/dead_code.hpp:247-356 | the whole forward sweep keeps the invariant when the flags are closed |
| DeadCodePass.DeadCodeWellFormed | include/cppad/local/val_graph/dead_code.hpp:223-365 | the rebuilt tape is well formed; it has the same `n_ind`, is no larger, has one dependent per old dependent, and keeps dependents at or below `n_ind` in place |
| DeadCodeSemantics.RebuildUpToExtends | include/cppad/local/val_graph/dead_code.hpp:247-356 | the forward sweep only appends to the new tape |
| DeadCodeSemantics.NeedsCallsClosed | include/cppad/local/val_graph/dead_code.hpp:181-217 | with corrected marking, every input of a kept call that the bridge says a needed result depends on is needed |
| DeadCodeSemantics.AgreesBinary | include/cppad/local/val_graph/dead_code.hpp:288-297 | a re-recorded add or sub computes, at its new index, the value the old one computed |
| DeadCodeSemantics.AgreesCon | include/cppad/local/val_graph/dead_code.hpp:319-325 | a re-recorded constant load gives the same constant at its new index |
| DeadCodeSemantics.AgreesCall | include/cppad/local/val_graph/dead_code.hpp:328-353 | a re-recorded call gives every needed result its old value at its new index, under an honest bridge |
| DeadCodeSemantics.AgreesKeep | include/cppad/local/val_graph/dead_code.hpp:266-355 | one forward step keeps every needed value below the frontier equal to its image in the new tape |
| DeadCodeSemantics.RebuildAgrees | include/cppad/local/val_graph/dead_code.hpp:247-356 | the forward sweep keeps that agreement up to every step |
| DeadCodeSemantics.StartAgrees | include/cppad/local/val_graph/dead_code.hpp:223-232 | the sweep starts in agreement: same independents, the NaN sentinel at `n_ind` |
| DeadCodeSemantics.DeadCodePreservesValues | include/cppad/local/val_graph/dead_code.hpp:71-373 | on the same independent values, each dependent of the rebuilt tape evaluates to the value of the matching old dependent, with the need sweep consulting the known values of the all-NaN evaluation (`NanValues`) as dead_code does, when the forward bridge is monotone and the reverse bridge is honest about it on inputs that carry those known values |
| DeadCodeIdempotence.NeedsJustified | include/cppad/local/val_graph/dead_code.hpp:101-220 | on a tape without calls, a value is needed iff it is a dependent or a kept invocation reads it |
| DeadCodeIdempotence.NewIndexSettled | include/cppad/local/val_graph/dead_code.hpp:247-356 | an entry of `new_val_index` below an invocation's results never changes after that invocation |
| DeadCodeIdempotence.KeepStepAppends | include/cppad/local/val_graph/dead_code.hpp:288-325 | keeping an add, sub, con or comparison appends its renumbered run and maps its result, if any, to the new frontier |
| DeadCodeIdempotence.NeedsCarryOver | include/cppad/local/val_graph/dead_code.hpp:101-220 | on a tape without calls, everything the sweep needs is needed again, at its new index, by any closed flags on the result |
| DeadCodeIdempotence.ReplayStep | include/cppad/local/val_graph/dead_code.hpp:247-356 | run on the result, the forward sweep re-records each kept invocation as it was, with every value mapped to itself |
| DeadCodeIdempotence.DeadCodeIdempotent | include/cppad/local/val_graph/dead_code.hpp:71-373 | on a tape without calls, a second pass returns the result of the first unchanged, for any known values and any bridge |
| DeadCodePass.AnyOutput | include/cppad/local/val_graph/dead_code.hpp:208-210 | a bridge under which every input is needed iff some output is |
| DeadCodePass.CallTapeWellFormed | include/cppad/local/val_graph/record_op.hpp:117-241 | the call counterexample tape is what the recorders produce |
| DeadCodePass.CompTapeWellFormed | include/cppad/local/val_graph/record_op.hpp:117-204 | the comparison counterexample tape is what the recorders produce |
| DeadCodePass.CallTapeCallStep | include/cppad/local/val_graph/dead_code.hpp:213-216 | as written, the call step clears the flag of `v2` |
| DeadCodePass.CallTapeNeedsAsWritten | include/cppad/local/val_graph/dead_code.hpp:101-220 | as-written flags on the call tape: only `v4` |
| DeadCodePass.CompTapeNeedsAsWritten | include/cppad/local/val_graph/dead_code.hpp:101-220 | as-written flags on the comparison tape: only `v0` |
| DeadCodePass.CallTapeDrops | include/cppad/local/val_graph/dead_code.hpp:267-276 | under the as-written flags, neither `v2`'s add nor the call is kept |
| DeadCodePass.CallTapeKeepsSum | include/cppad/local/val_graph/dead_code.hpp:288-297 | once both earlier invocations are dropped, keeping `v4`'s add reads the out-of-range marker 5 for `v2` |
| DeadCodePass.CallTapeRebuildAsWritten | include/cppad/local/val_graph/dead_code.hpp:288-297 | as written, the rebuilt `v4` adds the out-of-range marker 5 to itself |
| DeadCodePass.CompTapeRebuildAsWritten | include/cppad/local/val_graph/dead_code.hpp:307-316 | as written, the rebuilt comparison reads the out-of-range marker 3 |
| DeadCodePass.CallTapeUnclosed | include/cppad/local/val_graph/dead_code.hpp:213-216 | as written, a kept add reads an unneeded value |
| DeadCodePass.CallTapeRebuildBroken | include/cppad/local/val_graph/dead_code.hpp:213-216 | as written, the rebuilt call tape breaks the recorder invariant |
| DeadCodePass.CallOverwritesNeed | include/cppad/local/val_graph/dead_code.hpp:213-216 | as written, the call tape's flags are not closed and its rebuild is not a valid recording |
| DeadCodePass.CallTapeCorrected | include/cppad/local/val_graph/dead_code.hpp:213-216 | corrected, `v2` stays needed and the rebuilt tape is well formed |
| DeadCodePass.CompTapeUnclosed | include/cppad/local/val_graph/dead_code.hpp:171-173 | as written, a kept comparison reads an unneeded value |
| DeadCodePass.CompTapeRebuildBroken | include/cppad/local/val_graph/dead_code.hpp:171-173 | as written, the rebuilt comparison tape breaks the recorder invariant |
| DeadCodePass.KeptCompareUnmarked | include/cppad/local/val_graph/dead_code.hpp:171-173 | as written, the comparison tape's flags are not closed and its rebuild is not a valid recording |
| DeadCodePass.CompTapeCorrected | include/cppad/local/val_graph/dead_code.hpp:171-173 | corrected, the kept comparison's operand is needed and the rebuilt tape is well formed |
| DeadCodePass.InitNeedFlags | include/cppad/local/val_graph/dead_code.hpp:101-106 | a fresh flag array of length `n_val`: exactly the dependents set |
| DeadCodePass.MarkOperands | include/cppad/local/val_graph/dead_code.hpp:155-158 | equals `MarkRun` |
| DeadCodePass.OrDepend | include/cppad/local/val_graph/dead_code.hpp:213-216 | ors `depend_x` into the inputs' flags (corrected `SetSelected`) |
| DeadCodePass.CallNeedRun | include/cppad/local/val_graph/dead_code.hpp:182-216 | takes `depend_y` from the result flags and ors the bridge's `depend_x` into the inputs |
| DeadCodePass.CallNeedOp | include/cppad/local/val_graph/dead_code.hpp:181-217 | equals the corrected `CallNeed` |
| DeadCodePass.NeedOp | include/cppad/local/val_graph/dead_code.hpp:117-219 | equals the corrected `NeedStep` |
| DeadCodePass.NeedSweep | include/cppad/local/val_graph/dead_code.hpp:101-220 | the reverse loop computes the corrected `Needs` |
| DeadCodePass.KeptOp | include/cppad/local/val_graph/dead_code.hpp:267-274 | `need_op` holds iff any result is needed, or, for a comparison, iff `keep_compare` holds and the tag is not `compare_no` |
| DeadCodePass.RecordBinary | include/cppad/local/val_graph/dead_code.hpp:288-297 | re-records add/sub on translated operands and maps its result |
| DeadCodePass.RecordCon | include/cppad/local/val_graph/dead_code.hpp:319-325 | re-records the same pool value and maps its result |
| DeadCodePass.RecordComp | include/cppad/local/val_graph/dead_code.hpp:307-316 | re-records the comparison on translated operands |
| DeadCodePass.CallArgsOf | include/cppad/local/val_graph/dead_code.hpp:335-344 | equals `CallArgs`: needed inputs translated, others the sentinel |
| DeadCodePass.RenumberResults | include/cppad/local/val_graph/dead_code.hpp:350-351 | equals `Renumber` |
| DeadCodePass.RecordCall | include/cppad/local/val_graph/dead_code.hpp:328-353 | re-records the call and renumbers its results |
| DeadCodePass.KeepOp | include/cppad/local/val_graph/dead_code.hpp:266-355 | equals `KeepStep` |
| DeadCodePass.MapDeps | include/cppad/local/val_graph/dead_code.hpp:359-361 | equals `MapThrough` |
| DeadCodePass.ForwardSweep | include/cppad/local/val_graph/dead_code.hpp:247-356 | the forward loop from invocation 1 computes `RebuildUpTo` |
| DeadCodePass.DeadCode | include/cppad/local/val_graph/dead_code.hpp:71-373 | the tape becomes `DeadCodeResult` of the corrected sweep; it stays valid with the sentinel first |
| ProtoTape.NoCall | ad_op/tape.hpp:110-122 | a sized stand-in bridge for a tape without calls |
| ProtoTape.Tape.constructor | ad_op/tape.hpp:20-25 | an empty prototype tape |
| ProtoTape.Tape.SetInd | ad_op/tape.hpp:29-34 | `n_ind = n_val = n`; invocations and pool are emptied; `arg_vec_` is kept; no sentinel |
| ProtoTape.Tape.NextOp | ad_op/tape.hpp:37-74 | returns the old `n_val`; appends one invocation at the old operand length; copies two operands; advances `n_val` by 1; keeps the invariant |
| ProtoTape.Tape.NextConOp | ad_op/tape.hpp:77-103 | appends the constant and its pool index; returns the old `n_val`, advanced by 1 |
| ProtoTape.Tape.NVal | ad_op/tape.hpp:106-107 | returns `n_val` |
| ProtoTape.Tape.EvalStep | ad_op/tape.hpp:114-120 | runs one invocation in place, as `EvalOp` |
| ProtoTape.Tape.Eval | ad_op/tape.hpp:110-122 | requires `|val_vec| == n_val`; applies every invocation once, in order (`EvalAll`) |
| FunOp.NArg | val_op/fun_op.hpp:90-94 | on a recorded function-call run, returns `3+|x|` |
| FunOp.NRes | val_op/fun_op.hpp:96-100 | on a recorded function-call run, returns the `n_res` it was recorded with |
| FunOp.FunctionId | val_op/fun_op.hpp:102-106 | on a recorded function-call run, returns the `function_id` it was recorded with |
| FunOp.FunRunRoundTrip | val_op/fun_op.hpp:90-105 | the readers return words +0, +1 and +2 of a run; the function arguments follow the 3-word header |
| FunOp.FunInputs | val_op/fun_op.hpp:152-155 | `x` has length `n_arg-3` and `x[i-3] = val[arg_vec[arg_index+i]]` |
| FunOp.EvalFun | val_op/fun_op.hpp:157-167 | the result run holds the function's outputs in order; every other slot is unchanged |
| FunOp.EvalFunLocal | val_op/fun_op.hpp:148-167 | results depend only on the argument slots |
| FunOp.EvalFunOp | val_op/fun_op.hpp:133-183 | the in-place evaluation equals `EvalFun` |
| CppGraph.CppGraph.constructor | include/cppad/core/graph/cpp_graph.hpp:101-102 | the constructor initializes |
| CppGraph.CppGraph.Begin | include/cppad/core/graph/cpp_graph.hpp:37-40 | iteration starts at operator position 0 |
| CppGraph.CppGraph.End | include/cppad/core/graph/cpp_graph.hpp:41-44 | iteration stops at position `operator_vec_.size()`, so `Initialize` and `OperatorVecPushBack` can state where it ends |
| CppGraph.CppGraph.Initialize | include/cppad/core/graph/cpp_graph.hpp:90-100 | empty name, zero counts, five empty vectors, so `begin == end` |
| CppGraph.CppGraph.FunctionNameGet | include/cppad/core/graph/cpp_graph.hpp:154-157 | returns the stored function name; `FunctionNameSet` reads back through it |
| CppGraph.CppGraph.NDynamicIndGet | include/cppad/core/graph/cpp_graph.hpp:160-163 | returns the stored dynamic-parameter count; `NDynamicIndSet` reads back through it |
| CppGraph.CppGraph.NIndependentGet | include/cppad/core/graph/cpp_graph.hpp:166-169 | returns the stored independent count; `NIndependentSet` reads back through it |
| CppGraph.CppGraph.AtomicNameVecSize | include/cppad/core/graph/cpp_graph.hpp:264-265 | the number of elements of `atomic_name_vec_`; `AtomicNameVecPushBack` grows it by one |
| CppGraph.CppGraph.AtomicNameVecGet | include/cppad/core/graph/cpp_graph.hpp:262-263 | element `index` of `atomic_name_vec_`, for `index` below the size; `AtomicNameVecPushBack` reads back through it |
| CppGraph.CppGraph.ConstantVecSize | include/cppad/core/graph/cpp_graph.hpp:272-273 | the number of elements of `constant_vec_`; `ConstantVecPushBack` grows it by one |
| CppGraph.CppGraph.ConstantVecGet | include/cppad/core/graph/cpp_graph.hpp:270-271 | element `index` of `constant_vec_`, for `index` below the size; `ConstantVecPushBack` reads back through it |
| CppGraph.CppGraph.OperatorVecSize | include/cppad/core/graph/cpp_graph.hpp:280-281 | the number of elements of `operator_vec_`; `OperatorVecPushBack` grows it by one |
| CppGraph.CppGraph.OperatorVecGet | include/cppad/core/graph/cpp_graph.hpp:278-279 | element `index` of `operator_vec_`, for `index` below the size; `OperatorVecPushBack` reads back through it |
| CppGraph.CppGraph.OperatorArgSize | include/cppad/core/graph/cpp_graph.hpp:288-289 | the number of elements of `operator_arg_`; `OperatorArgPushBack` grows it by one |
| CppGraph.CppGraph.OperatorArgGet | include/cppad/core/graph/cpp_graph.hpp:286-287 | element `index` of `operator_arg_`, for `index` below the size; `OperatorArgPushBack` reads back through it |
| CppGraph.CppGraph.DependentVecSize | include/cppad/core/graph/cpp_graph.hpp:296-297 | the number of elements of `dependent_vec_`; `DependentVecPushBack` grows it by one |
| CppGraph.CppGraph.DependentVecGet | include/cppad/core/graph/cpp_graph.hpp:294-295 | element `index` of `dependent_vec_`, for `index` below the size; `DependentVecPushBack` reads back through it |
| CppGraph.CppGraph.FunctionNameSet | include/cppad/core/graph/cpp_graph.hpp:154-157 | the getter returns the value set; nothing else changes |
| CppGraph.CppGraph.NDynamicIndSet | include/cppad/core/graph/cpp_graph.hpp:160-163 | the getter returns the value set; nothing else changes |
| CppGraph.CppGraph.NIndependentSet | include/cppad/core/graph/cpp_graph.hpp:166-169 | the getter returns the value set; nothing else changes |
| CppGraph.CppGraph.AtomicNameVecPushBack | include/cppad/core/graph/cpp_graph.hpp:262-267 | size grows by 1; `get(old size)` is the new element; nothing else changes |
| CppGraph.CppGraph.ConstantVecPushBack | include/cppad/core/graph/cpp_graph.hpp:270-275 | size grows by 1; `get(old size)` is the new element; nothing else changes |
| CppGraph.CppGraph.OperatorVecPushBack | include/cppad/core/graph/cpp_graph.hpp:278-283 | size grows by 1; `get(old size)` is the new element; `end` moves by 1; nothing else changes |
| CppGraph.CppGraph.OperatorArgPushBack | include/cppad/core/graph/cpp_graph.hpp:286-291 | size grows by 1; `get(old size)` is the new element; nothing else changes |
| CppGraph.CppGraph.DependentVecPushBack | include/cppad/core/graph/cpp_graph.hpp:294-299 | size grows by 1; `get(old size)` is the new element; nothing else changes |
| AtomicThree.ForType | test_more/general/atomic_three.cpp:35-49 | succeeds iff `|type_x| == 3` and `|type_y| == 4`; on failure `type_y` is unchanged |
| AtomicThree.ForTypeOfUses | test_more/general/atomic_three.cpp:13-19 | each result type is the type of an argument its `g_i` uses, and is at least as variable as every argument `g_i` uses |
| AtomicThree.RevDepend | test_more/general/atomic_three.cpp:51-64 | succeeds iff `|depend_x| == 3` and `|depend_y| == 4`; on failure `depend_x` is unchanged |
| AtomicThree.RevDependExact | test_more/general/atomic_three.cpp:13-19 | `depend_x[k]` holds iff some needed `g_i` uses `x_k` |
| AtomicThree.RevDependMonotone | test_more/general/atomic_three.cpp:60-62 | more needed outputs never make fewer inputs needed |
| AtomicThree.AsReverse | test_more/general/atomic_three.cpp:51-64 | `rev_depend` as a sized reverse-dependency bridge |
| AtomicThree.NothingNeededThroughBridge | test_more/general/atomic_three.cpp:60-62 | if no output is needed, no input is needed |

## Left out

- Floating point. `Value` is `Nan | Num(int)`, and arithmetic is exact on `Num`. `cpp_graph` constants are `real`.
- Integer widths. `addr_t` and `size_t` are unbounded naturals, so overflow of the index type is not modelled.
- The atomic bridges. `call_atomic_forward`, `call_atomic_rev_depend` and `call_fun_t::forward` are function parameters with length predicates. Only the bridge built from `atomic_three.cpp`'s `rev_depend` is concrete.
- The value-graph tape's own `eval` and `op_iterator` (`tape.hpp`) are not part of this model. Evaluation is `EvalAll`, which runs each invocation once in order, as the prototype's `eval` does. Calls are evaluated as `call_op_t::eval` does.
- The `compare_false` counter and how a comparison is evaluated. `comp_op` is not part of this model, so a comparison's evaluation writes nothing.
- `compare_no_enum`. The enumeration is not part of this model; its value is taken to be 4. Nothing proved depends on the value.
- Arities of `con` and `comp`. The operator classes are not part of this model. The arities follow the assertions at `dead_code.hpp:172,177`: con has 1 operand word (the pool index) and 1 result; comp has 3 operand words (tag, left, right) and no result.
- `record_comp_op`. Its definition is not part of this model. `ValGraph.Tape.RecordCompOp` appends the comparison run that `dead_code` asks for.
- Unary operators. `dead_code` handles them (`dead_code.hpp:136-145`, `279-286`), but no unary operator exists among the modelled operator kinds, and `record_op` accepts only add and sub.
- The reverse sweep's fatal assertion for an operator kind it does not handle (`dead_code.hpp:164-167`). The operator kinds are a closed datatype, so that case cannot arise.
- Iteration kinds. `dead_code` iterates over `op_enum_vec_`, while `record_op.hpp` keeps `op_vec_`. The model uses the `op_vec_` layout for both.
- The NaN-sentinel checks at `dead_code.hpp:238-240` are a requirement: `DeadCode` requires `SentinelFirst`. That predicate asks for 0 in the first invocation's own pool-index word, while `dead_code.hpp:239` asserts `arg_vec_[0] == 0`. The two name the same word only when the first `set_ind` ran on an empty operand array: `set_ind` keeps `arg_vec_` and clears only the operation and constant vectors, so on a tape whose operand array already held words the source checks a different word.
- The no-forward-reference rule. The recorders never check it. `ValGraph.Tape.RecordOp`, `ValGraph.Tape.RecordCallOp`, `ValGraph.Tape.RecordCompOp` and `ProtoTape.Tape.NextOp` require every operand to be below `n_val`, as `call_op.hpp:91-94` documents and `dead_code.hpp:281,290-291` asserts.
- `ValGraph.Tape.RecordCallOp` also requires `atomic_index != 0`, the assertion at `call_op.hpp:208`.
- A bad operator kind passed to `record_op` or `next_op` is a fatal assertion in the source. The model requires an add or sub instead.
- ValGraph.Tape.constructor: `tape_t`'s constructor is in `tape.hpp`, which is not part of this model. The model starts every field empty.
- ProtoTape.Tape.constructor: the prototype has no constructor in the source, and its fields start uninitialised. The model starts them empty.
- `fun_op_t::op_enum`, and the virtual `eval` and `print_op` that always fail an assertion (`fun_op.hpp:86-87`, `109-129`).
  - The operator enumeration is not part of this model. `op_enum` returns `fun_op_enum` in the code, although its documentation (`fun_op.hpp:38`) says `con_op_enum`.
  - `FunOp.EvalFunOp` takes a function-call run directly, in place of checking the kind at `i_op` (`fun_op.hpp:139-141`).
- `cpp_graph_itr`, the `cpp_graph` iterator type, is not part of this model. `begin` and `end` are given as operator positions. `graph_op_enum` values are given as natural codes.
- `atomic_three.cpp`'s `forward` (floating point) and its `f.optimize()` checks, which exercise an optimizer that is not part of this model.
- Trace printing (`call_op.hpp:243-262`, `fun_op.hpp:170-180`), memory accounting (`dead_code.hpp:77-81,367-371`), singleton instances and thread plumbing. These are I/O and diagnostics.
- DeadCodePass.DeadCode: value preservation (`DeadCodePreservesValues`) holds for tapes with calls only under two premises on the atomic bridges, which the source trusts and cannot check. `DependencyHonest`: wherever the inputs agree on every argument `rev_depend` flags, the flagged outputs agree, for inputs that carry the known constants `con_x`; a bridge may so use those constants (`PickBridgesHonest`), but one whose flags are wrong even there is excluded. `ForwardMonotone`: the forward bridge never turns a NaN input into a number that a number input would change, which the proof needs to know that the all-NaN evaluation gives true constants.
- DeadCodeIdempotence.DeadCodeIdempotent: is proved for tapes without calls only. With calls, a second pass can differ: an input the first pass found unneeded becomes the sentinel, so its known value in the second pass is NaN, and the bridge may then answer differently.
- ValGraph.Tape.SetDep: requires every dependent below `n_val`. `set_dep` assigns without a check, but its documentation says the dependents are indices in the value vector.
- AtomicThree.AsReverse: hands `rev_depend` a fresh all-false `depend_x`. The passes instead hand over their own `depend_x` buffer after `resize(n_x)` (`rev_depend.hpp:152`, `dead_code.hpp:207`). When `rev_depend` fails (`atomic_three.cpp:56-59`), the model therefore reads "no argument needed". What the source does on that failure is decided in `call_atomic_rev_depend`, which is not part of this model.
- DeadCodePass.SetSelected: for the as-written marking, the contract states only the frame. What the as-written call step does is shown on a concrete tape by `DeadCodePass.CallTapeCallStep`.

## Findings

| source | as written | input that shows it | evidently intended | confidence | as-written member | corrected member |
|---|---|---|---|---|---|---|
| include/cppad/local/val_graph/dead_code.hpp:213-216 | The reverse sweep assigns `need_val_index[val_index] = depend_x[k]` for each call input, overwriting a flag that a later operator already set. | `set_ind(1)`; `v2 = v0 + v0`; `v3 = f(v2)` for an atomic `f` (one result); `v4 = v2 + v2`; dependents `[v4]`. `v3` is unused, so the call's `depend_x` is false and clears `v2`. The add producing `v2` is then dropped, and the rebuilt `v4` reads index 5, past the end of the new tape. | `need_val_index[val_index] = need_val_index[val_index] or depend_x[k]` | not executed | DeadCodePass.CallOverwritesNeed | DeadCodePass.CallTapeCorrected |
| include/cppad/local/val_graph/dead_code.hpp:171-173 | A comparison marks nothing in the reverse sweep, but with `keep_compare` the forward sweep re-records it and translates its operands. | `set_ind(1)`; `v2 = con(3)`; comparison `v0 < v2`; dependents `[v0]`; `keep_compare = true`. `v2` is never marked, so its load is dropped, and the rebuilt comparison reads index 3, past the end of the new tape. | a kept comparison marks its operands as needed | not executed | DeadCodePass.KeptCompareUnmarked | DeadCodePass.CompTapeCorrected |
