# Combo programs, their translations and their containers, in Dafny

The repository evolves small programs ("Combo" trees). This project models
the parts of it that carry real invariants and proves what they promise:

- the type checker: inheritance of types, reduction, intersection, inference,
  its completeness, and its soundness against the scalar interpreter, whose
  operators obey laws
  (`TypeTrees`, `TypeReduce`, `TypeNormalForms`, `TypeApplication`,
  `TypeSubstitution`, `TypeIntersection`, `TypeMeets`, `UnionMeets`,
  `TypeInference`, `TypeSoundness`, `PrincipalTypes`, `Combo`, `ScalarLaws`);
- the compiler to Atomese, the memoising column interpreter, and the way back
  (`Atoms`, `LogicalInterpreter`, `ColumnInterpreter`, `ComboToAtomese`,
  `ColumnAgreement`, `CompiledRuns`, `AtomeseToCombo`, `Labels`,
  `LabelParts`);
- the pointer-based n-ary tree: every mutator against the forest it represents,
  the copying loop, the pre-order iterator, comparison, orders, printer and
  parser (`Trees`, `TreeLinks`, `TreeEdits`, `LinkedTree`, `TreeCopy`,
  `TreeWalk`, `TreeCompare`, `TreeOrder`, `TreeText`, `TreeReader`, `ReadBack`,
  `Spellings`);
- list folds (`Folds`);
- neural nets: depth, convergence of propagation, what comes in over all paths,
  pruning, and the encoding as a tree with sharing (`Graphs`, `NeuralNet`,
  `NetPaths`, `NetReduction`, `NetCodec`, `NetTransform`);
- the LRU cache over whole runs of calls (`LruCache`), topological sort
  (`Digraph`) and the artificial ant (`AntTrail`).

Objects that the source updates in place are classes with the same fields, and
loops are loops: heap nodes with parent, child and sibling pointers, atoms with
stored values, net nodes with counters, activations and visited flags, the
cache's list and map, the parser's tree under construction. Each such method is
proved against a function or a forest, and the promises are proved as lemmas
about those. Contin values are `real`; library functions and activation
functions are parameters; random choices are arbitrary.

`dafny verify dfyconfig.toml` checks everything.

## What the proofs found

- Inheritance of types is not transitive through a lambda with an `unknown`
  parameter, and exactly there, on types reduced at every level of their unions:
  `TypeTrees.TransitiveThroughExactly`. Reduction does not flatten a union inside
  a union; for its fixed points of that kind one half holds
  (`TypeTrees.InheritTransitive`) and the other does not
  (`TypeTrees.HiddenUnknownParameter`).
- For the same reason reducing a union can lose a member that nothing left
  covers. Every union of given types is reduced to an equivalent one if and only
  if inheritance chains among them: `TypeIntersection.UnionReductionExactly`.
- Type inference accepts programs on which the interpreter fails: operators
  without operands, such as and(0<), and negated contin arguments, such as
  +(!$1); a plus or times without operands is no failure. Soundness is proved
  for all other programs of the fragment, and exactly these run throughout,
  every program in them included: `TypeSoundness.RunsThroughoutExactly`.
- One pass of the reduction does not look at the result of an applied function
  when inputs are left open in front of it: `TypeNormalForms.ResultLeftUnreduced`.
  For the types of programs one pass is enough.
- Inference finds the types of the arguments wherever there are any that make the
  program boolean or contin: `PrincipalTypes.InfersExactly`. The one exception is
  an argument that stands alone, which gets the unknown type.
- The translator that is given an atom space is not told what the program
  returns. That matters to an argument that stands alone, and to nothing else:
  `CompiledRuns.Session.CompileInSpace`.
- Removing connections without impact skips the first connection after each
  removal, so that one of weight zero can stay: exactly when the first two have
  weight zero, for one scan; and after the whole reduction exactly when, besides,
  no hidden node dies with the other connections of weight zero.
- A hidden node without in-connections can make the depth of a net too small for
  propagation to converge; `NeuralNet.RunBesideOrphan` is a run that ends wrong.
  Outputs that everything reaches within the depth still come out right, and
  where all weights are one no others do from every start:
  `NeuralNet.EnoughPassesExactly`.
- foldr over an expression that comes out as the empty list, such as
  cdr(list(1)), does not give the initial value: it folds the empty list itself
  in. The test for the end looks at the operands of the expression. With plus and
  times that fails, with cons it gives another list; and and or come out right.
- A leaf label that opens a quoted message is cut when read back if it goes on
  behind the message, and swallows what follows if it does not close it while a
  quote comes later: `ReadBack.PrintedIsReadBackExactly`.
- The tree reader takes text as a C string: labels must not hold the
  terminating character, besides blanks and parentheses.
- Turning labels into place holders and back needs no distinct labels. The other
  way round a label must not occur before in the list, and place holders must be
  in plain decimal notation: `Labels.Ph2lThenL2phExactly`.
- A comment in `tree.h` says that trees of different sizes are ordered by size
  with "!=" where the code compares with "<"; the code is what is modelled.

## Model

| member | source | states |
|---|---|---|
| TypeTrees.InheritReflexive | opencog/asmoses/combo/type_checker/type_tree.cc:449-518 | a well-formed type without applications inherits from itself |
| TypeTrees.InheritTransitive | opencog/asmoses/combo/type_checker/type_tree.cc:449-518 | inheritance chains through any middle type, nested however deeply, that has no `unknown` lambda parameter |
| TypeTrees.TransitiveThroughExactly | opencog/asmoses/combo/type_checker/type_tree.cc:481-494 | for a middle type reduced at every level of its unions: every chain through it composes if and only if it contains no lambda with an `unknown` parameter |
| TypeTrees.HiddenUnknownParameter | opencog/asmoses/combo/type_checker/type_tree.cc:885-913 | why the levels matter: reduction does not flatten a union inside a union, and a fixed point of it in which a member of a member is covered chains in spite of its `unknown` parameter |
| TypeTrees.BreakChain | opencog/asmoses/combo/type_checker/type_tree.cc:481-494 | for every such type with an `unknown` parameter anywhere in it, a type below and a type above it that are not related |
| TypeTrees.UnknownParameterBreaksTransitivity | opencog/asmoses/combo/type_checker/type_tree.cc:481-494 | the shortest failure, for every result type: ->(contin r), ->(unknown r), ->(boolean r) |
| TypeReduce.Reduce | opencog/asmoses/combo/type_checker/type_tree.cc:540-942 | reduction terminates on every well-shaped tree, applications with more, fewer and function-valued arguments included; no application is left and the weight does not grow |
| TypeReduce.Prune | opencog/asmoses/combo/type_checker/type_tree.cc:893-906 | the erasing scan over a union only drops members and never all of them |
| TypeNormalForms.ReduceIsNormal | opencog/asmoses/combo/type_checker/type_tree.cc:540-942 | one pass leaves a normal form of every tree in which the results of applied functions are in normal form, so that reducing once more changes nothing |
| TypeNormalForms.ProgramReducedOnce | opencog/asmoses/combo/type_checker/type_tree.cc:1203-1211 | the type of every program, lists and folds included, is reduced in one pass |
| TypeNormalForms.ResultLeftUnreduced | opencog/asmoses/combo/type_checker/type_tree.cc:838-852 | why results must be: application(->(boolean union(contin contin)) ->(contin boolean)) is reduced to ->(contin union(contin contin)), which can be reduced further |
| TypeApplications.ApplicationInOrder | opencog/asmoses/combo/type_checker/type_tree.cc:575-880 | the type of every application of a function type with reduced parameters, a repeated last one included: where the number of arguments fits and each is accepted, a function from what they leave open, the first argument's inputs first; ill formed otherwise |
| TypeApplications.InputsInOrder | opencog/asmoses/combo/type_checker/type_tree.cc:741-753 | a function applied to types that yield what it takes is a function of their inputs, in the order of the arguments |
| TypeApplications.ApplyingInTurn | opencog/asmoses/combo/type_checker/type_tree.cc:741-753 | to give such an application the types it takes comes to the same as giving each argument its own share of them first |
| TypeApplications.MixedInputs | opencog/asmoses/combo/type_checker/type_tree.cc:749-752 | the type of contin_if(0< impulse 5.0) is ->(contin boolean contin) |
| TypeIntersection.ReduceNormal | opencog/asmoses/combo/type_checker/type_tree.cc:540-942 | types without applications, arguments and comparable union members are fixed points of the reduction |
| TypeIntersection.PruneLeavesIncomparable | opencog/asmoses/combo/type_checker/type_tree.cc:893-906 | after the erasing scan no member of a union inherits from another, for every list of members |
| TypeIntersection.UnionReductionExactly | opencog/asmoses/combo/type_checker/type_tree.cc:885-913 | for any collection of normal well-formed types: every union of them reduces to an equivalent type if and only if inheritance chains among them |
| TypeIntersection.UnionReductionIsEquivalent | opencog/asmoses/combo/type_checker/type_tree.cc:885-913 | so reducing a union of types without `unknown` parameters gives a type that inherits from the union and from which the union inherits, and that is a member or a union of incomparable ones |
| TypeIntersection.UnionReductionCanLoseAMember | opencog/asmoses/combo/type_checker/type_tree.cc:893-906 | with an `unknown` parameter the scan drops a member and the result is not equivalent: a<=b<=c drops a and b although a is not below c |
| TypeIntersection.TypeBeforeTrichotomy | opencog/asmoses/utils/tree.h:3210-3223 | any two types are comparable in the order in which the intersections are collected, or equal |
| TypeIntersection.IntersectInheritsBoth | opencog/asmoses/combo/type_checker/type_tree.cc:954-1030 | the intersection of any two normal well-formed types, where well formed, inherits from both, by induction over unions nested in unions and (contravariant) lambdas; it is again a type this holds for, so narrowing can be repeated |
| TypeSubstitution.InheritIsSubstitution | opencog/asmoses/combo/type_checker/type_tree.cc:471-518 | inheritance of functions is substitution: a function inherits from one of as many inputs, repeated ones included, if and only if its result inherits and every list of argument types that fits the other fits it |
| TypeSubstitution.SubtypeApplies | opencog/asmoses/combo/type_checker/type_tree.cc:575-880 | where a function is applied to arguments that fit it, one that inherits from it can be applied instead, with a reduced type that inherits |
| TypeSubstitution.UnknownBelowRepeated | opencog/asmoses/combo/type_checker/type_tree.cc:471-518 | why both must repeat their last input: ->(unknown contin) inherits from ->(arg_list(contin) contin) and does not take two arguments |
| TypeMeets.LambdasMeetExactly | opencog/asmoses/combo/type_checker/type_tree.cc:992-1030 | the intersection of two normal lambdas is well formed if and only if one inherits from the other, or they are equally long and the intersection of their results is well formed |
| UnionMeets.UnionsMeetInOrder | opencog/asmoses/combo/type_checker/type_tree.cc:962-990 | the intersection of two unions, neither below the other, is the union of exactly the well-formed intersections of their members, each once and in increasing order |
| TypeMeets.IntersectIsGreatest | opencog/asmoses/combo/type_checker/type_tree.cc:954-1030 | for elementary types, unions and lambdas, nested in any way: where a type is below both arguments, their intersection is well formed and above it |
| TypeMeets.MeetsExactly | opencog/asmoses/combo/type_checker/type_tree.cc:954-1030 | such types have a well-formed intersection if and only if some type is below both |
| TypeInference.SignatureReducible | opencog/asmoses/combo/type_checker/type_tree.cc:56-60 | the type of every builtin is a tree the reduction accepts, with a repeated input in last place |
| TypeInference.InferArgTypes | opencog/asmoses/combo/type_checker/type_tree.cc:1138-1153 | the type the loop leaves for each argument inherits, where well formed, from the type expected at every occurrence, and everything that does so is below it |
| TypeInference.NarrowAllIsMeet | opencog/asmoses/combo/type_checker/type_tree.cc:1138-1153 | narrowing by the contexts one after the other gives their greatest lower bound, from any types to start with |
| PrincipalTypes.InferenceFindsTypes | opencog/asmoses/combo/type_checker/type_tree.cc:1085-1153 | argument types under which a program is boolean or contin are exactly those that inference finds for the arguments that occur, so that no program has two; arguments that do not occur get the unknown type |
| PrincipalTypes.InfersExactly | opencog/asmoses/combo/type_checker/type_tree.cc:1203-1211 | inference is complete: a program of the fragment that is no argument alone gets a well-formed signature with a boolean or contin result if and only if some argument types make it boolean or contin |
| PrincipalTypes.ArgumentsCounted | opencog/asmoses/combo/type_checker/type_tree.cc:1138-1153 | there are as many argument types as the highest argument in the program says |
| PrincipalTypes.LoneArgument | opencog/asmoses/combo/type_checker/type_tree.cc:1085-1116 | an argument alone gets the unknown type |
| TypeSoundness.ReduceIsTypeOf | opencog/asmoses/combo/type_checker/type_tree.cc:575-880 | reducing the applications of a program gives its syntax-directed type, behind one open input for each plus or times without operands, for any argument types |
| TypeSoundness.InferTypeParts | opencog/asmoses/combo/type_checker/type_tree.cc:1203-1211 | the inferred signature consists of the narrowed argument types, the inputs left open by a plus or times without operands, and the type of the body |
| TypeSoundness.SaturatedParts | opencog/asmoses/combo/type_checker/type_tree.cc:1203-1211 | where every operator has operands the inputs are the arguments and nothing else |
| TypeSoundness.WellTypedEval | opencog/asmoses/combo/interpreter/interpreter.cc:266-385 | a program typed boolean or contin evaluates, under inputs of the argument types, to a value of its type or an overflow |
| TypeSoundness.TypeSoundness | opencog/asmoses/combo/type_checker/type_tree.cc:1203-1211 | type soundness: if inference gives a well-formed signature with a boolean or contin result, the mixed interpreter never hits an unhandled case on matching inputs and yields a value of the result type or an overflow; operators need operands, save plus and times |
| TypeSoundness.RunsThroughoutExactly | opencog/asmoses/combo/type_checker/type_tree.cc:1203-1211 | the provisos are exact: a program of the fragment to which inference gives a well-formed signature with a boolean or contin result, and every program in it, runs on all inputs of the argument types if and only if operators have operands, save plus and times, and negated arguments are boolean |
| TypeSoundness.UnsaturatedProgramIsTypedButStuck | opencog/asmoses/combo/type_checker/type_tree.cc:575-880 | why operators need operands: and(0<) is typed ->(contin boolean) and fails on every input |
| TypeSoundness.NegatedContinIsTypedButStuck | opencog/asmoses/combo/type_checker/type_tree.cc:1046-1058 | why negated arguments must be boolean: +(!$1) is typed ->(contin contin) and fails on every input |
| ScalarLaws.IfChooses | opencog/asmoses/combo/interpreter/interpreter.cc:336-359 | contin_if evaluates to its second operand where the condition is true and to its third where it is false, whatever the other one does |
| ScalarLaws.IfIsBlend | opencog/asmoses/combo/interpreter/interpreter.cc:331-359 | over numbers contin_if(c x y) evaluates to what +(*(impulse(c) x) *(impulse(not(c)) y)) does |
| ScalarLaws.AbsoluteValue | opencog/asmoses/combo/interpreter/interpreter.cc:316-359 | contin_if(0<(x) x *(-1 x)) is the absolute value of x |
| ScalarLaws.DivisionUndone | opencog/asmoses/combo/interpreter/interpreter.cc:157-168 | *(/(x y) y) gives x for every y other than zero |
| ScalarLaws.DivisionByZero | opencog/asmoses/combo/interpreter/interpreter.cc:157-168 | what is not zero overflows when divided by zero, with a sign that 0< sees |
| ScalarLaws.LibraryValue | opencog/asmoses/combo/interpreter/interpreter.cc:170-191 | exp, log and sin of a number are what their own library function gives for it, an overflow included |
| ScalarLaws.LibraryAlone | opencog/asmoses/combo/interpreter/interpreter.cc:170-191 | and no other library function matters to them |
| ScalarLaws.NotAndIsOrNots | opencog/asmoses/combo/interpreter/interpreter.cc:66-85 | not(and(..)) evaluates to what or(not(..)..) does, failures and operands that are not evaluated included |
| LogicalInterpreter.LogicalAnd | opencog/asmoses/atomese/interpreter/logical_interpreter.cc:56-73 | the zipped loop computes the conjunction row by row |
| LogicalInterpreter.LogicalOr | opencog/asmoses/atomese/interpreter/logical_interpreter.cc:75-91 | the zipped loop computes the disjunction row by row |
| LogicalInterpreter.LogicalNot | opencog/asmoses/atomese/interpreter/logical_interpreter.cc:106-114 | the loop negates every row |
| LogicalInterpreter.GreaterThan | opencog/asmoses/atomese/interpreter/logical_interpreter.cc:116-130 | the zipped loop compares row by row |
| ColumnInterpreter.Interpreter.Run | opencog/asmoses/atomese/interpreter/Interpreter.cc:42-76 | memoised evaluation of a possibly shared program returns its meaning over all rows, keeps every value stored on any atom equal to that atom's meaning, changes no stored value and stores nothing under other keys |
| ColumnInterpreter.RunWithoutColumns | opencog/asmoses/atomese/interpreter/Interpreter.cc:42-76 | a first program without any column below it comes out with length one, however many rows the table has, and fixes the size to one |
| ColumnInterpreter.Interpreter.RunLink | opencog/asmoses/atomese/interpreter/Interpreter.cc:65-75 | running the outgoing set in order, executing and storing keeps the memo correct |
| ColumnInterpreter.Interpreter.ExtractOutputSize | opencog/asmoses/atomese/interpreter/Interpreter.cc:238-259 | the search finds the number of rows exactly when some atom below has a column |
| ColumnInterpreter.Interpreter.UnwrapConstant | opencog/asmoses/atomese/interpreter/Interpreter.cc:78-96 | a constant becomes a column of the full length that means it |
| ColumnInterpreter.Interpreter.Execute | opencog/asmoses/atomese/interpreter/Interpreter.cc:98-236 | each link of the fragment folds its operand columns into the column it stands for |
| ColumnInterpreter.ExecutedMeans | opencog/asmoses/atomese/interpreter/Interpreter.cc:98-236 | executing a link on columns that mean its outgoing atoms gives a column that means the link |
| ColumnInterpreter.MeansUnique | opencog/asmoses/atomese/interpreter/Interpreter.cc:42-76 | an atom means at most one column over a table |
| ComboToAtomese.AtomSpace.AddAtom | opencog/asmoses/combo/converter/combo_atomese.cc:127-127 | adding an atom gives the one atom of its content: the one that is there already, and then nothing is added, or a new one over atoms of the space; the space never holds two of the same content |
| ComboToAtomese.Translator.Translate | opencog/asmoses/combo/converter/combo_atomese.h:107-131 | the recursive translation gives a finite atom that represents the program: operator by operator, with the zero added to comparisons and arguments typed by the operator around them |
| ComboToAtomese.Translator.TranslateArgument | opencog/asmoses/combo/converter/combo_atomese.cc:72-130 | an argument becomes a predicate or schema node named by its label or index, a negated one a NotLink, or a product with -1 where the context is contin |
| ColumnAgreement.TranslationAgrees | opencog/asmoses/atomese/interpreter/Interpreter.cc:42-147 | every row of the column of a translated program is what the scalar interpreter returns on that row |
| ColumnAgreement.ColumnsAgreeWithRows | opencog/asmoses/combo/converter/combo_atomese.h:107-131 | for every inferred well-typed program and table, any column that means the translation has one entry per row, equal to the scalar value of that row |
| CompiledRuns.Session.constructor | opencog/asmoses/moses/main/populate_atomspace.cc:13-28 | filling a new space with a variable and its column for each column of the table makes a memo that is right and a table that compiled programs can be run over |
| CompiledRuns.Session.Compile | opencog/asmoses/moses/representation/instance_scorer.cc:77-81 | translating a well-typed program without a space and adding the whole program to the space gives an atom that represents it, whose variables are those of the columns; operators and arguments that are there already are shared, a program that is there is found, and the memo stays right |
| CompiledRuns.Session.OneAtomForProgram | opencog/asmoses/moses/representation/instance_scorer.cc:77-81 | the space holds one atom for a program |
| CompiledRuns.Session.CompileInSpace | opencog/asmoses/combo/converter/combo_atomese.cc:48-50 | a translator that is given the space but not what the program returns, and so guesses it, gives an atom that represents the program if and only if the program is not an argument that stands alone or the guess is right; otherwise the atom goes down to a variable without a column |
| CompiledRuns.Session.Run | opencog/asmoses/atomese/interpreter/Interpreter.cc:42-76 | running a compiled program, whatever was compiled and run before, gives the column whose rows are what the scalar interpreter returns on the rows of the table, keeps the memo right and forgets nothing; a program that ran before stores nothing more |
| CompiledRuns.Session.EvaluateTwice | opencog/asmoses/atomese/interpreter/Interpreter.cc:42-63 | compile, run, compile and run again: it is one atom, both columns agree with interpretation row by row, and the second one comes from the memo |
| AtomeseToCombo.Reader.AtomToCombo | opencog/asmoses/combo/converter/combo_atomese.cc:209-322 | reading an atom back with its loop and label list computes the specified program and labels, or fails where an assertion does |
| AtomeseToCombo.ReadTranslation | opencog/asmoses/combo/converter/combo_atomese.cc:209-322 | reading back a translation gives the program with arguments renumbered by first occurrence and !$i spelled not($i) |
| AtomeseToCombo.RenumberKeepsMeaning | opencog/asmoses/combo/converter/combo_atomese.cc:299-311 | renumbering the arguments and permuting the inputs alike does not change any value |
| AtomeseToCombo.RoundTripKeepsMeaning | opencog/asmoses/combo/converter/combo_atomese.cc:199-322 | the round trip preserves meaning: under every permutation of the inputs by the returned labels, the program read back evaluates to what the original does |
| AtomeseToCombo.InputsCanBePermuted | opencog/asmoses/combo/converter/combo_atomese.cc:299-311 | inputs with a value for every argument have a permutation by the labels of the program read back, since labels of different arguments differ |
| AtomeseToCombo.WellTypedRoundTrips | opencog/asmoses/combo/converter/combo_atomese.cc:209-322 | every well-typed program of the fragment meets the conditions of the round trip |
| Labels.NameRoundTrip | opencog/asmoses/combo/converter/combo_atomese.cc:299-306 | the label of a clean variable name is read back from it |
| Labels.ParseComboVariables | opencog/asmoses/combo/combo/iostream_combo.cc:580-605 | the two-state scan finds all variable names of a text in order |
| LabelParts.TakenApart | opencog/asmoses/combo/combo/iostream_combo.cc:580-605 | every text consists of parts: text without variables, a name that ends at a delimiter, and so on |
| LabelParts.NamesFound | opencog/asmoses/combo/combo/iostream_combo.cc:580-605 | the names the scan finds are those of the parts, in order |
| Labels.DecimalRoundTrip | opencog/asmoses/combo/combo/iostream_combo.cc:527-537 | decimal notation of an index is read back |
| Labels.Ph2l | opencog/asmoses/combo/combo/iostream_combo.cc:509-537 | the in-line state machine renames every place holder, plus sign and leading zeros included, to its label, or fails at the first that has none |
| Labels.L2ph | opencog/asmoses/combo/combo/iostream_combo.cc:539-578 | the in-line state machine renames every label to its index, or fails at the first that is not in the list |
| LabelParts.NamesChanged | opencog/asmoses/combo/combo/iostream_combo.cc:509-578 | renaming changes the names of the parts and nothing else, and fails if and only if one of them cannot be renamed |
| Labels.RenamingUndone | opencog/asmoses/combo/combo/iostream_combo.cc:509-578 | renaming the names of a whole text and renaming the result back gives the text, if each name met comes back |
| Labels.RenamingUndoneExactly | opencog/asmoses/combo/combo/iostream_combo.cc:509-578 | where names are renamed to names without delimiters and back to such, renaming back gives the text if and only if each name met comes back |
| Labels.Ph2lThenL2ph | opencog/asmoses/combo/combo/iostream_combo.cc:509-578 | labels put for place holders in plain decimal notation and taken out again give the text, for distinct labels without delimiters |
| Labels.Ph2lThenL2phExactly | opencog/asmoses/combo/combo/iostream_combo.cc:509-578 | labels put for place holders are turned back into these if and only if each place holder met is in plain decimal notation and its label does not occur before it in the list |
| Labels.L2phThenPh2l | opencog/asmoses/combo/combo/iostream_combo.cc:509-578 | place holders put for labels and taken out again give the text, distinct labels or not |
| TreeLinks.SpliceLinks | opencog/asmoses/utils/tree.h:789-1328 | replacing k siblings by any list changes exactly the links of the new nodes and of the neighbours into the gap |
| TreeLinks.Mirrored | opencog/asmoses/utils/tree.h:2127-2149 | the neighbours of any run of siblings point back at it |
| LinkedTrees.LinkedTree.Validates | opencog/asmoses/utils/tree.h:2127-2149 | in every valid tree each node passes validate: parent's first and last child and both siblings point back |
| LinkedTrees.LinkedTree.constructor | opencog/asmoses/utils/tree.h:709-733 | the empty tree is the two sentinels side by side |
| LinkedTrees.LinkedTree.EraseChildren | opencog/asmoses/utils/tree.h:772-787 | everything below the node is freed, each node once, and the rest keeps all links |
| LinkedTrees.LinkedTree.Erase | opencog/asmoses/utils/tree.h:789-815 | the subtree is gone from the forest, its nodes are freed once, all links of the rest are consistent |
| LinkedTrees.LinkedTree.AppendChild | opencog/asmoses/utils/tree.h:1069-1096 | a new leaf behind the children, all links consistent, the rest unchanged |
| LinkedTrees.LinkedTree.Insert | opencog/asmoses/utils/tree.h:1218-1240 | a new leaf to the left of the position, before the end sentinel included |
| LinkedTrees.LinkedTree.InsertAfter | opencog/asmoses/utils/tree.h:1274-1295 | a new leaf to the right of the position |
| LinkedTrees.LinkedTree.InsertAbove | opencog/asmoses/utils/tree.h:1297-1328 | a new node takes the position, with the old subtree as its only child |
| LinkedTrees.LinkedTree.Flatten | opencog/asmoses/utils/tree.h:1478-1503 | the children move up to the right of the position, in order; nothing changes for a leaf |
| LinkedTrees.LinkedTree.Reparent | opencog/asmoses/utils/tree.h:1507-1553 | any range of siblings that does not contain the position moves behind the position's children, in order; an empty range changes nothing |
| LinkedTrees.LinkedTree.LastBefore | opencog/asmoses/utils/tree.h:1515-1520 | the loop finds the last node of the range |
| LinkedTrees.LinkedTree.Wrap | opencog/asmoses/utils/tree.h:1563-1572 | inserting and reparenting gives the same forest as inserting above |
| LinkedTrees.LinkedTree.MoveAfter | opencog/asmoses/utils/tree.h:1574-1601 | the subtree moves to the right of the target, from anywhere outside it; nothing changes when it is there already |
| LinkedTrees.LinkedTree.MoveBefore | opencog/asmoses/utils/tree.h:1603-1630 | the subtree moves to the left of the target, from anywhere outside it; nothing changes when it is there already |
| TreeEdits.AlreadyAfter | opencog/asmoses/utils/tree.h:1582-1585 | the early return is right: moving a node behind its left neighbour is no change |
| TreeEdits.AlreadyBefore | opencog/asmoses/utils/tree.h:1612-1615 | the early return is right: moving a node before its right neighbour is no change |
| TreeCopies.Climb | opencog/asmoses/utils/tree.h:1418-1422 | the inner loop climbs source, in this tree or another one, and copy in step to the next subtree with a right sibling, or to the start |
| TreeCopies.CopyBelow | opencog/asmoses/utils/tree.h:1408-1429 | the descend-and-climb loop ends, with every node of the source, in this tree or another one, copied once below the new head |
| TreeCopies.Replace | opencog/asmoses/utils/tree.h:1369-1432 | a deep copy of the source subtree, of the same tree or another one, stands at the position: same shape, same data node by node, of new nodes; the old subtree is freed, everything else unchanged |
| TreeCopies.CopyHoldsSameValues | opencog/asmoses/utils/tree.h:1369-1432 | a copy paired node by node with its original holds the same tree of values |
| TreeWalks.Increment | opencog/asmoses/utils/tree.h:2361-2378 | the climb stops at the node behind in pre-order, with or without skipping the children |
| TreeWalks.EraseAndStep | opencog/asmoses/utils/tree.h:789-815 | the iterator that erasing returns stands at the node behind the erased subtree, which stays in the tree |
| TreeWalks.Decrement | opencog/asmoses/utils/tree.h:2380-2395 | the step back gives the node before in pre-order |
| TreeWalks.NeighboursInOrder | opencog/asmoses/utils/tree.h:2361-2395 | both steps give the neighbours in the pre-order sequence of all nodes |
| TreeWalks.StepsUndoEachOther | opencog/asmoses/utils/tree.h:2361-2395 | a step forward from n gives m if and only if a step back from m gives n, if and only if they are consecutive in pre-order |
| TreeOrder.TreeOrdersAreStrictTotal | opencog/asmoses/utils/tree.h:3185-3223 | the lexicographic and the size-first order are strict total orders in which only equal trees are equivalent, for any strict total order of labels |
| TreeOrder.FirstDifferenceDecides | opencog/asmoses/utils/tree.h:3185-3223 | where two pre-order walks come to different labels for the first time, these labels decide which tree comes first lexicographically, and by size where the sizes are equal |
| TreeOrder.FewerChildrenFirst | opencog/asmoses/utils/tree.h:3185-3223 | of two nodes with one label, the one whose children are a proper beginning of the other's comes first |
| TreeOrder.SubtreesFirst | opencog/asmoses/utils/tree.h:3210-3223 | in the size-first order a tree comes behind all its proper subtrees |
| TreeCompares.EqualSubtree | opencog/asmoses/utils/tree.h:1910-1920 | comparing two nodes of one or two linked trees, and then two iterators that step below them, answers yes if and only if the two subtrees hold the same tree of data |
| TreeCompares.Equal | opencog/asmoses/utils/tree.h:1889-1906 | the loop over both iterators answers yes if and only if what stands below the two nodes, of one tree or two, is equal; it ends, and neither iterator leaves its tree |
| TreeCompares.WalkIsSeen | opencog/asmoses/utils/tree.h:2361-2378 | the walk over the values of a forest is the sequence of data and child counts that the iterator meets in it |
| TreeOrder.EqualSubtreeDecidesEquality | opencog/asmoses/utils/tree.h:1889-1920 | comparing two walks over given trees of values step by step decides structural equality, whatever the second walk meets behind its subtree |
| TreeOrder.PreOrderInjective | opencog/asmoses/utils/tree.h:1889-1920 | the pre-order sequence of labels and child counts determines the tree |
| TreeText.Tidy | opencog/asmoses/utils/tree.cc:102-127 | the in-place clean-up with two indices computes the specified text and its length |
| TreeText.PrintedIsTidy | opencog/asmoses/utils/tree.cc:102-127 | the clean-up leaves every printed tree as it is |
| TreeText.Gather | opencog/asmoses/utils/tree.cc:81-94 | the loop over lines gathers text until the parentheses close |
| TreeText.PrintReads | opencog/asmoses/utils/tree.cc:46-63 | wherever a printed tree stands, delimited, the grammar reads exactly it and sets off the actions that build it |
| TreeReaders.ActionsBuildTree | opencog/asmoses/utils/tree.cc:20-39 | from an empty tree, the actions of a tree build exactly that tree |
| TreeReaders.ParsingNeverDerails | opencog/asmoses/utils/tree.cc:20-63 | for every text, matching or not, no action of the parser meets a closed tree or climbs from none |
| TreeReaders.TreeBuilder.BeginInternal | opencog/asmoses/utils/tree.cc:20-25 | opening a node extends the linked tree at the cursor as specified |
| TreeReaders.TreeBuilder.AddLeaf | opencog/asmoses/utils/tree.cc:32-38 | adding a leaf extends the linked tree at the cursor as specified |
| TreeReaders.TreeBuilder.EndInternal | opencog/asmoses/utils/tree.cc:27-30 | closing a node moves the cursor to the parent pointer |
| TreeReaders.Read | opencog/asmoses/utils/tree.cc:69-132 | reading lines gives the tree of the actions of the grammar on the cleaned-up text, and nothing exactly when the parentheses do not match |
| TreeReaders.PrintedIsReadBack | opencog/asmoses/utils/tree.h:3259-3283 | printer and parser: the actions set off by a printed tree, with any further lines behind it, build that tree |
| TreeReaders.ReadPrinted | opencog/asmoses/utils/tree.cc:69-132 | reading back a printed tree gives a linked tree that holds exactly it |
| Spellings.SpelledTextTidied | opencog/asmoses/utils/tree.cc:102-127 | the clean-up turns every spelling of a tree, with blanks in front of it and of open parentheses and with empty pairs of parentheses behind labels without children, into what the printer writes |
| Spellings.LinesGathered | opencog/asmoses/utils/tree.cc:73-82 | lines that keep a parenthesis open up to the last are gathered, and no line behind them is looked at |
| Spellings.WrittenIsReadExactly | opencog/asmoses/utils/tree.cc:69-132 | the actions set off by any such spelling of a tree of words, over one line or several and with any lines behind, build that tree if and only if none of its labels that open a quoted message is misread |
| Spellings.ReadWritten | opencog/asmoses/utils/tree.cc:69-132 | reading any such spelling gives a linked tree that holds exactly the tree |
| Spellings.BarePlusIsWritten | opencog/asmoses/utils/tree.cc:109-115 | the line +() is such a spelling of + alone |
| ReadBack.PrintedIsReadBackExactly | opencog/asmoses/utils/tree.cc:46-63 | a printed tree of words, with any further lines behind it, is read back as itself if and only if every leaf that opens a quoted message ends with the first quote behind the opening, or no quote follows there or later in the text |
| ReadBack.Misread | opencog/asmoses/utils/tree.cc:46-63 | where a leaf is not read to its own end the actions of the grammar bring in another label at some place, whether the rest matches or not |
| ReadBack.FitsExactly | opencog/asmoses/utils/tree.cc:46-50 | in a text in which a tree is printed its leaves are read to their ends if and only if that holds of its labels and of what follows |
| ReadBack.LoneWordReadBack | opencog/asmoses/utils/tree.cc:46-54 | a lone label is read back as itself if and only if it does not open a quoted message and close it before its end |
| Folds.FoldrIsFoldRight | opencog/asmoses/combo/interpreter/eval.cc:403-454 | foldr over a literal list ends, within a depth linear in the list, with the right fold of its operator |
| Folds.FoldlIsFoldLeft | opencog/asmoses/combo/interpreter/eval.cc:456-492 | foldl over a literal list ends with the left fold, although its accumulator is an ever deeper unevaluated call |
| Folds.FoldsAgree | opencog/asmoses/combo/interpreter/eval.cc:403-492 | for a commutative and associative operation both folds agree |
| Folds.FoldsOfPlus | opencog/asmoses/combo/interpreter/eval.cc:403-492 | foldr and foldl of plus over numbers both give the sum |
| Folds.FoldsOfTimes | opencog/asmoses/combo/interpreter/eval.cc:403-492 | foldr and foldl of times over numbers both give the product, early exit at zero included |
| Folds.FoldrConsIsIdentity | opencog/asmoses/combo/interpreter/eval.cc:380-401 | foldr of cons from the empty list gives the list back |
| Folds.CarCdrOfExpression | opencog/asmoses/combo/interpreter/eval.cc:342-378 | car and cdr of any expression that evaluates to a list give its first element and the rest |
| Folds.FoldrOverExpression | opencog/asmoses/combo/interpreter/eval.cc:403-454 | foldr of any modelled operator over an expression for a list is the right fold, save where an expression with operands comes out empty: then it is the operator applied to the empty list and the initial value |
| Folds.FoldrOfOperatorOverExpression | opencog/asmoses/combo/interpreter/eval.cc:403-454 | for plus, times, and, or, cons: it is the right fold if and only if the list is not empty, or the expression has no operands, or the operator is and or or |
| Folds.AppliedToNothing | opencog/asmoses/combo/interpreter/eval.cc:128-215 | applied to the empty list and a value, plus and times fail, cons puts the empty list in front, and and or give the value |
| Folds.FoldrOfPlusOverExpression | opencog/asmoses/combo/interpreter/eval.cc:409-413 | folding plus over an expression for a list gives the sum if and only if the list is not empty or the expression has no operands; otherwise it fails |
| NeuralNet.Ann.FeedforwardDepthRecurse | opencog/asmoses/combo/combo/simple_nn.h:517-535 | the relaxation ends, keeps counters lengths of real paths, only raises them and settles the node |
| NeuralNet.Ann.FeedforwardDepth | opencog/asmoses/combo/combo/simple_nn.h:493-514 | every counter ends as the length of a longest path from an input, and the result is the largest counter of an output |
| NeuralNet.Ann.Propagate | opencog/asmoses/combo/combo/simple_nn.h:466-490 | one in-place pass, in any node order, leaves the activations that visiting the nodes one by one gives, and makes every node one step further from the inputs correct |
| NeuralNet.Ann.Run | opencog/asmoses/combo/combo/simple_nn.h:493-514 | the activations end as those after as many passes as the depth, which bring every output to its feed-forward value, from any starting activations and in any node order, if only inputs have no connections into them; otherwise every output that is reached within the depth |
| NetPaths.ValueIsPathSum | opencog/asmoses/combo/combo/simple_nn.h:466-490 | without activation function the feed-forward value of a node is the sum, over all paths from inputs to it, of the given input times the product of the weights on the path |
| NetPaths.PathIsListed | opencog/asmoses/combo/combo/simple_nn.h:466-490 | every path from an input to the node is among those summed over |
| NetPaths.ListedIsPath | opencog/asmoses/combo/combo/simple_nn.h:466-490 | and nothing else is |
| NetPaths.NoPathTwice | opencog/asmoses/combo/combo/simple_nn.h:466-490 | and no path comes twice where no connection does |
| NetPaths.RunLinear | opencog/asmoses/combo/combo/simple_nn.h:493-514 | a run without activation function leaves at every output the sum over its paths, from any starting activations of the other nodes |
| NetPaths.IncomingScales | opencog/asmoses/combo/combo/simple_nn.h:476-483 | multiplying the weights of the connections into a node by any number multiplies what comes in by it |
| NetPaths.IncomingOfOnes | opencog/asmoses/combo/combo/simple_nn.h:476-483 | with weights one, what comes in is the sum of the activations at the sources |
| NetPaths.SamePasses | opencog/asmoses/combo/combo/simple_nn.h:466-490 | passes over a net whose nodes are numbers, in which nets are reduced, are passes over the net of nodes it stands for |
| NeuralNet.EnoughPassesExactly | opencog/asmoses/combo/combo/simple_nn.h:466-514 | where all weights are one: some number of passes bring a node to its feed-forward value for every activation function, node order and starting activations if and only if everything that reaches it has done so by then |
| NeuralNet.RunTooShort | opencog/asmoses/combo/combo/simple_nn.h:466-514 | every net with an output that something reaches later than the depth has a run that ends wrong: weights one, no activation function, nodes back to front, starting activations of one |
| NeuralNet.ActivationStep | opencog/asmoses/combo/combo/simple_nn.h:466-490 | activating one node keeps what was correct and makes the node correct |
| NeuralNet.AcyclicNetIsRanked | opencog/asmoses/combo/combo/simple_nn.h:516-535 | a net without cycles has a ranking along its connections, which is what the depth needs |
| NeuralNet.RankedNetIsAcyclic | opencog/asmoses/combo/combo/simple_nn.h:516-535 | and a ranked net has no cycles |
| NeuralNet.OrphanSpoilsDepth | opencog/asmoses/combo/combo/simple_nn.h:493-514 | an output fed by a hidden node without in-connections alone counts as reached by no path, although its value is not its starting activation |
| NeuralNet.RunBesideOrphan | opencog/asmoses/combo/combo/simple_nn.h:466-514 | the failing run: if such an output is the only one it keeps its starting activation, so that it ends right if and only if it starts with its value |
| NetReduction.SamePasses | opencog/asmoses/combo/combo/simple_nn.h:466-490 | nets that carry the same signals into the common nodes have the same activations of them after any number of passes |
| NetReduction.RemoveConnectionSame | opencog/asmoses/combo/combo/simple_nn.h:593-600 | removing a connection of weight zero changes no activation after any number of passes |
| NetReduction.RemoveNodeSame | opencog/asmoses/combo/combo/simple_nn.h:568-582 | removing a node that feeds nothing changes no other activation after any number of passes |
| NetReduction.ScanLeavesZero | opencog/asmoses/combo/combo/simple_nn.h:176-185 | the restarting scan leaves a connection of weight zero if and only if the first two have it |
| NetReduction.Reducer.RemoveConnections | opencog/asmoses/combo/combo/simple_nn.h:176-185 | the scan with its restarting index ends, removes what the specification says and keeps all activations |
| NetReduction.Reducer.RemoveNodes | opencog/asmoses/combo/combo/simple_nn.h:187-204 | the scan over hidden nodes ends, removes dead ones only and keeps all activations |
| NetReduction.PermutedSameOn | opencog/asmoses/combo/combo/simple_nn.h:126-126 | neither the order of the connections nor their order at each node changes any activation after any number of passes |
| NetReduction.SortValueIsWeightAt | opencog/asmoses/combo/combo/simple_nn.h:113-124 | what connections are sorted by is the weight, without signs, that all connections of the net have at the ends that are the node |
| NetReduction.Reducer.SortAll | opencog/asmoses/combo/combo/simple_nn.h:208-220 | the two final loops leave the connections into every node sorted by the magnitudes at their sources, and all activations as they were |
| NetReduction.Reducer.Reduce | opencog/asmoses/combo/combo/simple_nn.h:166-222 | reduce ends; every surviving node has the same activation as before after any number of passes; no dead hidden node is left, connections are sorted, and a weight of zero is left if and only if the first two had it and no hidden node dies with the others |
| NetTransforms.EncodeTree | opencog/asmoses/combo/combo/convert_ann_combo.h:39-97 | encoding with visited flags writes each node once and marks what came up |
| NetTransforms.EncodeAnn | opencog/asmoses/combo/combo/convert_ann_combo.h:99-114 | the encoded net is the specified tree, its outputs from the last to the first |
| NetCodec.SeenIsReaching | opencog/asmoses/combo/combo/convert_ann_combo.h:39-97 | the nodes that come up in an encoding are exactly those with a path to an output |
| NetCodec.EncodeNodeTells | opencog/asmoses/combo/combo/convert_ann_combo.h:39-97 | an encoded tree tells of the wires of exactly the nodes it expands, and names every node as what it is |
| NetCodec.WiresKept | opencog/asmoses/combo/combo/convert_ann_combo.h:86-95 | sources from last to first and weights in order give back the wires in order |
| NetCodec.WrittenRoots | opencog/asmoses/combo/combo/convert_ann_combo.h:107-113 | in an encoded net each output comes up first as a child of the root |
| NetCodec.WrittenNetTells | opencog/asmoses/combo/combo/convert_ann_combo.h:99-114 | an encoded net tells of the nodes with a path to an output and of exactly their wires, in order |
| NetTransforms.Decoder.FindTag | opencog/asmoses/combo/combo/simple_nn.h:422-428 | the search finds the node with the tag if there is one |
| NetTransforms.Decoder.AddConnection | opencog/asmoses/combo/combo/simple_nn.h:537-543 | a new connection comes last in the list of the net and in those at both ends, no other node changes, and one wire is added |
| NetTransforms.Decoder.DecodifyNode | opencog/asmoses/combo/combo/convert_ann_combo.h:139-173 | a vertex gives the node with its tag, added as hidden or input if there is none |
| NetTransforms.Decoder.DecodifySubtree | opencog/asmoses/combo/combo/convert_ann_combo.h:175-202 | everything a subtree tells is added: nodes it names, and wires in order, weights matched to sources from the last to the first |
| NetTransforms.Decoder.DecodifyTree | opencog/asmoses/combo/combo/convert_ann_combo.h:116-137 | a new net gets an output per child of the root and everything the tree tells |
| NetTransforms.DecodeWritten | opencog/asmoses/combo/combo/convert_ann_combo.h:116-202 | building a net from what a net is written as gives its nodes with a path to an output, their kinds and their wires in order |
| NetTransforms.RoundTrip | opencog/asmoses/combo/combo/convert_ann_combo.h:99-202 | decoding an encoded net gives, by tag, the nodes with a path to an output, of the same kind, with the same connections and weights in the same order, and the outputs in reverse |
| LruCaches.LruCache.Call | opencog/asmoses/utils/lru_cache.h:124-161 | a call returns the value, changes list, map and counters as specified and keeps list and map in agreement, also when the function fails |
| LruCaches.LruCache.Trim | opencog/asmoses/utils/lru_cache.h:148-152 | dropping the last entry keeps list and map in agreement |
| LruCaches.LruCache.Remove | opencog/asmoses/utils/lru_cache.h:112-122 | removal forgets the argument in list and map, and changes nothing for others |
| LruCaches.LruCache.Clear | opencog/asmoses/utils/lru_cache.h:163-166 | nothing is left |
| LruCaches.RunIsRecent | opencog/asmoses/utils/lru_cache.h:124-161 | after any run of calls the list holds the n most recent distinct arguments with a value, in recency order |
| LruCaches.EveryCallCounts | opencog/asmoses/utils/lru_cache.h:124-161 | hits and misses add up to the calls |
| LruCaches.LargerCacheIncludesSmaller | opencog/asmoses/utils/lru_cache.h:124-161 | on the same calls a larger cache holds at least what a smaller one does, in the same order, and never hits less |
| LruCaches.RecencyIsDistance | opencog/asmoses/utils/lru_cache.h:124-161 | the place of an argument in the recency order is the number of distinct arguments called since |
| LruCaches.HitIffFewCallsSince | opencog/asmoses/utils/lru_cache.h:124-161 | a call hits if and only if fewer than n distinct arguments were called since the last call of its argument |
| Digraphs.Digraph.Insert | opencog/asmoses/utils/digraph.h:50-53 | inserting an arc keeps both directions mirrored and adds one edge |
| Digraphs.Digraph.Erase | opencog/asmoses/utils/digraph.h:55-58 | erasing an arc keeps both directions mirrored and removes one edge |
| Digraphs.Digraph.Empty | opencog/asmoses/utils/digraph.h:64-69 | the sum of set sizes is zero exactly when there is no edge |
| Digraphs.RandomizedTopologicalSort | opencog/asmoses/utils/digraph.h:88-119 | whatever the shuffle, the final assertion holds if and only if the graph is acyclic, and then the output lists every node once with sources before destinations |
| Graphs.PredecessorsMakeACycle | opencog/asmoses/utils/digraph.h:117-117 | a finite graph in which every node has a predecessor has a cycle |
| Graphs.AcyclicIffRanked | opencog/asmoses/utils/digraph.h:117-117 | a finite graph is acyclic if and only if it has a ranking along its edges |
| AntTrail.Ant.Eval | examples/ant-trails/ant_scoring.cc:74-146 | running a program leaves position, heading, time and trail as specified and returns the pellets eaten |
| AntTrail.Ant.Score | examples/ant-trails/ant_scoring.cc:42-57 | the do-while loop ends, with the pellets eaten equal to those gone from the trail, at most one per time step, and no more time used than there is |
| AntTrail.RunConserves | examples/ant-trails/ant_scoring.cc:74-146 | over any run pellets eaten and pellets left add up, each pellet costs a step, and no passing of time means no change |
| AntTrail.MovesAhead | examples/ant-trails/ant_scoring.cc:74-146 | with time enough, k moves lead k cells ahead on the torus and cost k steps |
| AntTrail.AllAround | examples/ant-trails/ant_scoring.cc:74-146 | going straight any number of times around the torus leads back to the same place and heading, whatever is eaten on the way |
| AntTrail.TurnsOnTheSpot | examples/ant-trails/ant_scoring.cc:74-146 | turning takes one step, moves nothing and turns the direction of the next step by a right angle, clockwise or counter-clockwise |
| AntTrail.EatsRowThenTurns | examples/ant-trails/ant_scoring.cc:74-146 | k + 1 times a branch on food between moving and any other program eat up the row of k pellets ahead, change no other cell, and run the other program at its end |

## Left out

- TypeReduce.Reduce: rewrites type trees as values; the order of the in-place
  erasures, flattenings and overwritings on the shared tree is not modelled.
- `arg_list` with several children (used by `cond` only), and the `ils` branch
  of application reduction, are not modelled.
- `cond`, `equ`, `apply`, `lambda` and `rand` are outside the type-soundness
  fragment: they are typed `unknown` or not implemented.
- TypeSoundness.TypeSoundness: one direction only, since a program can run well
  although a program in it does not, where `and`, `or`, `times` or `contin_if`
  leave that one unevaluated; TypeSoundness.RunsThroughoutExactly is exact.
- TypeMeets.IntersectIsGreatest: not for a union against a lambda nor for two
  argument lists, which the intersection takes as a whole, nor for lambdas whose
  results are unions with `unknown` parameters, which lose members when reduced.
- TypeApplications.InputsInOrder: for elementary parameters; an argument that is a
  function itself leaves open what TypeApplications.ApplicationInOrder says.
- Only the mixed input vector of the scalar interpreter is modelled, not its
  boolean-only and contin-only variants; `nan` does not exist over the reals.
- `DIVIDE_LINK`, `EXP_LINK`, `SINE_LINK`, `LOG2_LINK`, `COND_LINK` and
  `KNOB_LINK`: outside the fragment of compiled columns and of the round trip.
- ColumnInterpreter.Interpreter.Run: for an interpreter that knows the number of
  rows or finds a column below the program; ColumnInterpreter.RunWithoutColumns
  says what comes of a program without columns otherwise.
- CompiledRuns.Session.Compile: for well-typed programs in which every operator
  has operands, over tables of boolean and contin columns with distinct labels,
  and with a space: without one no variable has a column.
- The AtomSpace library is assumed to give back an atom of the same content.
- AtomeseToCombo.Reader.AtomToCombo: builds the subtree it returns instead of
  appending through an iterator into one tree.
- Labels.Ph2l: overflow of the index type, and what the number conversion makes
  of a negative number, are not modelled: a place holder with a minus sign fails.
- LinkedTrees.LinkedTree.Insert: insertion at the end of a range by a sibling
  iterator is the same as appending a child and is not modelled again.
- LinkedTrees.LinkedTree.MoveBefore: the sibling-iterator overload is not
  modelled; at an end position it does not update the parent's last child.
- TreeCopies.Replace: overlapping source and target are excluded, and two trees
  have no node in common.
- TreeCompares.EqualSubtree: the data are compared by equality.
- Spellings.WrittenIsReadExactly: blanks in front of a closing parenthesis, and more
  than one between siblings, are left to the grammar and not among the spellings.
- `swap`, `move_ontop`, `merge`, `sort` and the breadth-first, leaf and
  fixed-depth iterators of the tree.
- Folds.FoldrIsFoldRight: evaluation is bounded by a nesting depth, and the
  lemma says which depth suffices. Of the operators, `and`, `or`, `plus`,
  `times` and the list operations are modelled; the folds copy subtrees as
  values. After erasing the list operand foldl steps back from the erased node;
  the model takes the operand before it.
- NetTransforms.EncodeTree: memory inputs (a second child below an input) are
  not modelled.
- NetTransforms.Decoder.DecodifySubtree: for trees that name a tag always as an
  input or always as a node, and NetTransforms.Decoder.DecodifyTree for trees in
  which no output is named before it comes up as a child of the root; encoded
  nets are such trees.
- NetReduction.Reducer.Reduce: nodes are named by numbers instead of pointers,
  the connections out of a node are read off the list of all connections, and
  two connections with the same ends and weight are not told apart.
- LruCaches.LruCache.Call: `resize`, the adaptive cache and the threaded
  variants are not modelled; hashing is not modelled.
- AntTrail.Ant.Eval: actions other than moving and turning fail an assertion in
  the source and are not modelled; the trail is given.
- Command lines, logging, tables, DOT output, optimisers and drivers are not
  part of this model.
