# A verified model of core parts of iBioSim

iBioSim is a tool for modelling, analysing and designing genetic circuits.
Models are SBML documents; the tool simulates them, analyses their fluxes,
explores their timed state space and synthesises circuits from them. This
project models, in Dafny, the parts of iBioSim listed below, and proves
what each of them promises.

- **Genetic-network visitors.** `PrintComplexVisitor`,
  `PrintSpeciesVisitor` and `PrintActivatedProductionVisitor` write the SBML
  species, complex-formation reactions and activated-production reactions of
  a genetic network into an SBML document. They share the compartment lookup
  in `checkCompartments`. The document is a class whose species and reactions
  lists the visitors append to (modules `PrintComplex`, `PrintSpecies`,
  `PrintActivatedProduction`, `CompartmentLookup`, `SbmlDocuments`, `Networks`).
- **Hierarchical simulator setup.** `HierarchicalSetup` and `ReactionSetup`
  turn an SBML model into the simulator's nodes: compartments, species,
  parameters, rules, constraints, events, initial assignments and reactions
  with their propensities. `FunctionNode` updates a variable from its
  assignment or rate. Calls into code outside the model are recorded in a
  call log (modules `SimulatorSetup`, `ReactionSetup`, `FunctionNodes`).
- **Rules editor.** The rule panel displays each rule as a string and
  rebuilds the rule list from those strings. It checks whether a variable
  may receive another rule, and sorts assignment rules so that each follows
  the rules it depends on (modules `RuleList`, `Rules`).
- **Timed state exploration.** `Zone` keeps a difference bound matrix (DBM)
  over the enabled timers. It closes the matrix with Floyd's algorithm and
  merges two zones; the merge is modelled with three defects of the source
  corrected (see Findings). `InequalityVariable` evaluates an inequality against a
  zone's bounds. `State` is a state of a labelled Petri net (modules `Zones`,
  `ZoneTimers`, `InequalityVariables`, `LpnState`).
- **Platu expressions.** `BitNegNode` is the bitwise negation node of the
  expression tree (module `PlatuExpression`, with 32-bit arithmetic in
  `JavaInt`).
- **Learning.** `Encodings` keeps the discretisation levels of the species
  of a gene-network learner (module `Encodings`).
- **Synthesis.** `DecomposedGraph` is the graph a NOT/NOR circuit is
  decomposed into, with its topological sort (module `DecomposedGraphs`).
- **Flux balance analysis.** `FluxBalanceAnalysis` builds the linear
  program of an SBML model with the FBC package. It consists of an objective,
  inequality constraints from flux bounds, and an equality system from
  steady-state stoichiometry and fixed fluxes. It hands the program to a
  solver and maps the solver's failures to error codes (module
  `FluxBalance`).

State that the source changes in place is modelled by classes with `seq`,
`map` and array fields. Loops are methods with loop invariants, proved
against specification functions; the lemmas beside those functions state
what the source promises. Java exceptions become `Result`/`Option`
outcomes. Strings are `seq<char>`; Java `double` values are `real`.

## Model

| member | source | states |
|---|---|---|
| PlatuExpression.Evaluate | gui/src/verification/platu/expression/BitNegNode.java:13-15 | evaluation stays within Java's 32-bit int range; a variable leaf yields its slot of the state vector |
| PlatuExpression.EvaluateBitNeg | gui/src/verification/platu/expression/BitNegNode.java:13-15 | the bitwise complement a negation node computes equals `-v - 1` for the operand's value `v` |
| PlatuExpression.DoubleNegation | gui/src/verification/platu/expression/BitNegNode.java:13-15 | two nested negation nodes evaluate to the operand's own value |
| PlatuExpression.GetVariables | gui/src/verification/platu/expression/BitNegNode.java:17-19 | the set gains exactly the expression's variable leaves and nothing else |
| PlatuExpression.ToStringShape | gui/src/verification/platu/expression/BitNegNode.java:21-24 | the printed form is one `~` per negation node followed by the leaf's name, so the nesting depth can be read back from the text |
| PlatuExpression.CopyIsEqual | gui/src/verification/platu/expression/BitNegNode.java:26-28 | a copy is structurally equal to the original, prints the same and has the same variables |
| JavaInt.BitNot32IsNegMinusOne | gui/src/verification/platu/expression/BitNegNode.java:14 | flipping all 32 bits of a two's-complement int yields `-x - 1` |
| CompartmentLookup.StripLast | src/backend/biomodel/visitor/PrintComplexVisitor.java:124 | cutting at the last `__` yields a proper prefix at least two characters shorter |
| CompartmentLookup.FirstFitFromSpec | src/backend/biomodel/visitor/PrintComplexVisitor.java:125-132 | the inner loop returns the first compartment name that equals the prefix or whose own name minus its last suffix equals it, and finds nothing iff no name fits |
| CompartmentLookup.FoundSpec | src/backend/biomodel/visitor/PrintComplexVisitor.java:122-133 | the lookup finds a compartment iff some name fits some cut-back prefix; the one found fits the longest prefix that any name fits |
| CompartmentLookup.CompartmentOfSpec | src/backend/biomodel/visitor/PrintComplexVisitor.java:120-135 | an id without `__` gets the default compartment; otherwise the result is the default or one of the compartment names |
| CompartmentLookup.CheckCompartments | src/backend/biomodel/visitor/PrintComplexVisitor.java:120-135 | the two nested loops return exactly the compartment the lookup specification selects |
| PrintComplex.RateConstantsSpec | src/backend/biomodel/visitor/PrintComplexVisitor.java:107-117 | `kf` is the first constant; with two constants `kr` is the second, otherwise 1; `kcomp * kr == kf` in both cases |
| PrintComplex.NIds | src/backend/biomodel/visitor/PrintComplexVisitor.java:77 | one cooperativity id per influence |
| PrintComplex.Reactants | src/backend/biomodel/visitor/PrintComplexVisitor.java:76 | one reactant per influence |
| PrintComplex.CoopParameters | src/backend/biomodel/visitor/PrintComplexVisitor.java:78 | one dimensionless local parameter per influence |
| PrintComplex.ReactantsTotal | src/backend/biomodel/visitor/PrintComplexVisitor.java:73-81 | the reactants' stoichiometries add up to the `stoich` the loop accumulates |
| PrintComplex.NcSumSpec | src/backend/biomodel/visitor/PrintComplexVisitor.java:79-101 | `ncSum` is the cooperativity ids joined by `+` with one trailing `+`, so the law's `substring(0, length-1)` is exactly the `+`-join |
| PrintComplex.RateParametersSpec | src/backend/biomodel/visitor/PrintComplexVisitor.java:83-90 | `kf` is first-order for stoich 1 and second-order for stoich at least 2, `kcomp` is present only above 2, and `kr` is always last |
| PrintComplex.ComplexLawSpec | src/backend/biomodel/visitor/PrintComplexVisitor.java:95-104 | the law for stoich 1 or 2 is forward times the parts minus reverse times the bound complex; above 2 it carries the `kcomp^(ncSum-2)` factor; it is empty iff stoich is below 1 or strictly between 1 and 2 |
| PrintComplex.CollectParts | src/backend/biomodel/visitor/PrintComplexVisitor.java:73-81 | the loop's `stoich`, `ncSum`, `compExpression`, reactants and local parameters equal their definitions over the influence list |
| PrintComplex.AddRateParameters | src/backend/biomodel/visitor/PrintComplexVisitor.java:83-90 | the rate parameters are appended after the cooperativity parameters |
| PrintComplex.PrintComplexVisitor.constructor | src/backend/biomodel/visitor/PrintComplexVisitor.java:19-27 | the visitor holds the document, species, compartments and complex map it is given |
| PrintComplex.PrintComplexVisitor.LoadValues | src/backend/biomodel/visitor/PrintComplexVisitor.java:107-117 | the three constant fields are set as the rate-constant specification says |
| PrintComplex.PrintComplexVisitor.VisitComplex | src/backend/biomodel/visitor/PrintComplexVisitor.java:40-93 | exactly one reaction is appended: the reversible, not fast complexation reaction with the parts as reactants, the complex as product, its compartment from the lookup, and the law and parameters above; species are untouched |
| PrintComplex.PrintComplexVisitor.Accept | src/backend/biomodel/visitor/PrintComplexVisitor.java:36 | a complex gets its reaction; any other kind of species adds nothing |
| PrintComplex.PrintComplexVisitor.Run | src/backend/biomodel/visitor/PrintComplexVisitor.java:33-38 | the document gains, in species order, the complexation reaction of each complex that passes the abstraction filter, and nothing else |
| PrintSpecies.CompartmentForSpec | gui/src/gcm/visitor/PrintSpeciesVisitor.java:138-166 | without a compartments map, or for an id without `__`, the model's first compartment is used; otherwise the result is that default or a key of the map |
| PrintSpecies.VisitOutcomeSpec | gui/src/gcm/visitor/PrintSpeciesVisitor.java:40-130 | a complex is removed iff abstraction hides it; every other visited species is added with only-substance units, its initial amount and concentration, its compartment, a name unless it is a complex, and a boundary condition iff it is constant; spastic and diffusible-constitutive species also get the irreversible, not fast `Constitutive_production_<id>` reaction with law `kp` |
| PrintSpecies.RunReactions | gui/src/gcm/visitor/PrintSpeciesVisitor.java:34-129 | the reactions run adds are exactly the constitutive-production reactions of the spastic and diffusible-constitutive species, in order |
| PrintSpecies.RunKeepsSubstanceUnits | gui/src/gcm/visitor/PrintSpeciesVisitor.java:47-115 | every species the run leaves in the document has only-substance units when the ones before it had |
| PrintSpecies.PrintSpeciesVisitor.constructor | gui/src/gcm/visitor/PrintSpeciesVisitor.java:23-28 | the visitor holds the document, species and compartments it is given |
| PrintSpecies.PrintSpeciesVisitor.LoadValues | gui/src/gcm/visitor/PrintSpeciesVisitor.java:132-135 | the initial amount and concentration are copied from the species |
| PrintSpecies.PrintSpeciesVisitor.CheckCompartments | gui/src/gcm/visitor/PrintSpeciesVisitor.java:138-166 | the loops return exactly the compartment the lookup specification selects |
| PrintSpecies.PrintSpeciesVisitor.VisitComplex | gui/src/gcm/visitor/PrintSpeciesVisitor.java:40-52 | the document changes exactly as the visit outcome of a complex says |
| PrintSpecies.PrintSpeciesVisitor.VisitPlainSpecies | gui/src/gcm/visitor/PrintSpeciesVisitor.java:54-74 | base, constant and diffusible species are added as the visit outcome says, with nothing else changed |
| PrintSpecies.PrintSpeciesVisitor.VisitConstitutiveSpecies | gui/src/gcm/visitor/PrintSpeciesVisitor.java:76-97 | spastic and diffusible-constitutive species are added together with their constitutive-production reaction |
| PrintSpecies.PrintSpeciesVisitor.Accept | gui/src/gcm/visitor/PrintSpeciesVisitor.java:40-130 | each kind of species reaches its own visit method; other species change nothing |
| PrintSpecies.PrintSpeciesVisitor.Run | gui/src/gcm/visitor/PrintSpeciesVisitor.java:34-38 | the document ends as every species' visit outcome applied in species order |
| PrintActivatedProduction.ActivatorNameSpec | src/dataModels/biomodel/visitor/PrintActivatedProductionVisitor.java:32-35 | an id without `__` is its own activator name; for `a__b` or `a__b__rest` (pieces free of `_`) the name is the second piece `b` |
| PrintActivatedProduction.NamesInjective | src/dataModels/biomodel/visitor/PrintActivatedProductionVisitor.java:36-37 | for one promoter, `<promoter>_<activator>_RNAP` and `R_act_production_<promoter>_<activator>` determine the activator name |
| PrintActivatedProduction.ProductsSpec | src/dataModels/biomodel/visitor/PrintActivatedProductionVisitor.java:53-55 | one product per promoter output, in order, each with the promoter's stoichiometry |
| PrintActivatedProduction.ActivatedFor | src/dataModels/biomodel/visitor/PrintActivatedProductionVisitor.java:30-62 | an activator's reaction is named `R_act_production_<promoter>_<activator>`, has the RNAP-bound species as its only modifier, and its law is `actString*speciesName` |
| PrintActivatedProduction.RunReactionsSpec | src/dataModels/biomodel/visitor/PrintActivatedProductionVisitor.java:47-159 | every reaction run adds belongs to an activator with a visit method, is irreversible and not fast, has no reactants, the promoter's outputs as products, and one local parameter holding the promoter's Kact |
| PrintActivatedProduction.RunReactionsCount | src/dataModels/biomodel/visitor/PrintActivatedProductionVisitor.java:30-45 | run adds one reaction per activator whose kind has a visit method; `visitSpecies` adds none |
| PrintActivatedProduction.PrintActivatedProductionVisitor.constructor | src/dataModels/biomodel/visitor/PrintActivatedProductionVisitor.java:20-24 | the visitor holds the document, promoter and compartment it is given |
| PrintActivatedProduction.PrintActivatedProductionVisitor.LoadValues | src/dataModels/biomodel/visitor/PrintActivatedProductionVisitor.java:156-159 | `stoc` and `act` are the promoter's stoichiometry and Kact; the names are untouched |
| PrintActivatedProduction.PrintActivatedProductionVisitor.AddActivatedReaction | src/dataModels/biomodel/visitor/PrintActivatedProductionVisitor.java:47-62 | exactly the reaction for the current species and reaction names is appended; species and names are unchanged |
| PrintActivatedProduction.PrintActivatedProductionVisitor.Accept | src/dataModels/biomodel/visitor/PrintActivatedProductionVisitor.java:42-154 | every kind with a `visit*` method other than `visitSpecies` adds that reaction; the rest add nothing |
| PrintActivatedProduction.PrintActivatedProductionVisitor.VisitActivator | src/dataModels/biomodel/visitor/PrintActivatedProductionVisitor.java:31-38 | one loop iteration derives the names from the activator's id and adds that activator's reaction when it has a visit method |
| PrintActivatedProduction.PrintActivatedProductionVisitor.Run | src/dataModels/biomodel/visitor/PrintActivatedProductionVisitor.java:30-40 | the document gains exactly the activators' reactions in activator order; species are untouched |
| InequalityVariables.New | gui/src/verification/timed_state_exploration/zoneProject/InequalityVariable.java:91-127 | the constructor fails with an illegal-argument error iff the name does not start with `$`; otherwise the variable is internal, keeps its name, initial value and tree, and its continuous variable is read from the left child when that side contains one, else from the right |
| InequalityVariables.NewFromProperties | gui/src/verification/timed_state_exploration/zoneProject/InequalityVariable.java:58-63 | this constructor always fails as unsupported |
| InequalityVariables.NewWithPort | gui/src/verification/timed_state_exploration/zoneProject/InequalityVariable.java:71-77 | this constructor always fails as unsupported |
| InequalityVariables.NewNameOnly | gui/src/verification/timed_state_exploration/zoneProject/InequalityVariable.java:135-140 | this constructor always fails as unsupported |
| InequalityVariables.NewIsWellNamed | gui/src/verification/timed_state_exploration/zoneProject/InequalityVariable.java:95-148 | every constructed variable has a non-empty `$`-name, so `toString`'s `substring(1)` is always defined |
| InequalityVariables.ToString | gui/src/verification/timed_state_exploration/zoneProject/InequalityVariable.java:146-148 | the text is `Inequality Variable : ` followed by the name without its leading `$` |
| InequalityVariables.PortIsInternalButNotReported | gui/src/verification/timed_state_exploration/zoneProject/InequalityVariable.java:101-196 | a constructed variable's port is internal, yet `isInternal` (like `isInput` and `isOutput`) reports false |
| InequalityVariables.EvaluateInequality | gui/src/verification/timed_state_exploration/zoneProject/InequalityVariable.java:206-289 | the result is exactly `true` or `false`; with the variable on the left a `<`/`<=` holds iff the upper bound is at most the expression and any other operator iff the lower bound is at least it; with the variable on the right `<`/`<=` holds iff the expression is at most the lower bound and any other iff it is at least the upper bound |
| InequalityVariables.EvaluateInequalityMeansWholeRange | gui/src/verification/timed_state_exploration/zoneProject/InequalityVariable.java:222-285 | for `<=` and `>=` the answer is `true` iff the inequality holds for every value in the variable's zone range `[lower, upper]` |
| Encodings.LevelIsFirstThreshold | gui/src/learn/genenet/Encodings.java:51-64 | the level is `k-1` for the first threshold `k >= 1` that is at least the datum, and `numBins-1` when there is none; a level found that way lies in `0 .. length-2` |
| Encodings.PadTo | gui/src/learn/genenet/Encodings.java:36-47 | padding keeps the list as a prefix, reaches at least the requested length, and fills only the new positions |
| Encodings.Pad | gui/src/learn/genenet/Encodings.java:36-47 | the while-loop growing a list appends fill values until the length is reached |
| Encodings.Grown | gui/src/learn/genenet/Encodings.java:36-47 | after growing, cell `[experiment][row][col]` exists |
| Encodings.GrownKeepsCells | gui/src/learn/genenet/Encodings.java:36-47 | growing creates the target cell and the needed experiments, keeps every existing cell's value, and sets every new cell to 0 |
| Encodings.Encodings.constructor | gui/src/learn/genenet/Encodings.java:15-20 | three bins, no thresholds, no level assignments |
| Encodings.Encodings.WithBins | gui/src/learn/genenet/Encodings.java:22-27 | the given number of bins, no thresholds, no level assignments |
| Encodings.Encodings.AddDiscreteSpecies | gui/src/learn/genenet/Encodings.java:29-32 | the column's thresholds are replaced and nothing else changes |
| Encodings.Encodings.GetLevelAssignment | gui/src/learn/genenet/Encodings.java:51-64 | the search loop returns the level of the datum among the column's thresholds; a column without thresholds yields no level |
| Encodings.Encodings.AddLevelAssignment | gui/src/learn/genenet/Encodings.java:34-49 | the lists grow to hold the cell, the cell receives the datum's level, every other cell keeps its value, and `size()` becomes the larger of the old size and `experiment+1` |
| SbmlDocuments.WithoutSpeciesSpec | gui/src/gcm/visitor/PrintSpeciesVisitor.java:50 | removing a species by id keeps exactly the species with another id |
| FunctionNodes.VariableNode.SetValue | analysis/src/main/java/edu/utah/ece/async/ibiosim/analysis/simulation/hierarchical/math/FunctionNode.java:88 | only the value cell at `index` is written, and the answer is whether it differs from the old value |
| FunctionNodes.VariableNode.SetRate | analysis/src/main/java/edu/utah/ece/async/ibiosim/analysis/simulation/hierarchical/math/FunctionNode.java:116 | only the rate cell at `index` is written, and the answer is whether it differs from the old rate |
| FunctionNodes.ConcentrationRate | analysis/src/main/java/edu/utah/ece/async/ibiosim/analysis/simulation/hierarchical/math/FunctionNode.java:107-115 | with a constant compartment the rate is `raw*c`; with a changing one it satisfies `r*c == raw*c*c + value*dc`, the quotient rule for an amount turned into a concentration |
| FunctionNodes.FunctionNode.constructor | analysis/src/main/java/edu/utah/ece/async/ibiosim/analysis/simulation/hierarchical/math/FunctionNode.java:35-39 | the node binds the variable and math it is given and starts as no initial assignment |
| FunctionNodes.FunctionNode.Copy | analysis/src/main/java/edu/utah/ece/async/ibiosim/analysis/simulation/hierarchical/math/FunctionNode.java:41-45 | the copy shares the variable and the math, and its initial-assignment flag is left at false whatever the original's |
| FunctionNodes.FunctionNode.SetIsInitAssignment | analysis/src/main/java/edu/utah/ece/async/ibiosim/analysis/simulation/hierarchical/math/FunctionNode.java:62-73 | the getter returns what the setter stored |
| FunctionNodes.FunctionNode.ComputeFunction | analysis/src/main/java/edu/utah/ece/async/ibiosim/analysis/simulation/hierarchical/math/FunctionNode.java:127-129 | the value is the evaluator's value of the node's math at the index, and nothing is modified; for a variable with only substance units it is exactly the rate updateRate writes |
| FunctionNodes.FunctionNode.UpdateVariable | analysis/src/main/java/edu/utah/ece/async/ibiosim/analysis/simulation/hierarchical/math/FunctionNode.java:82-93 | with no variable, a deleted index, or an initial assignment facing a rule, nothing is written and the answer is false; otherwise the value at `index` becomes the evaluated math and the answer is exactly whether it changed |
| FunctionNodes.FunctionNode.UpdateRate | analysis/src/main/java/edu/utah/ece/async/ibiosim/analysis/simulation/hierarchical/math/FunctionNode.java:100-120 | with no variable or a deleted index nothing is written and the answer is false; otherwise the rate at `index` becomes the raw math for an only-substance variable and the concentration-corrected rate for any other, and the answer is whether it changed |
| FunctionNodes.InitialAssignmentYieldsToRule | analysis/src/main/java/edu/utah/ece/async/ibiosim/analysis/simulation/hierarchical/math/FunctionNode.java:86 | a consequence of the definition of `Applies`, the guard of updateVariable that its contract is stated with: an initial assignment never applies where the variable has a rule; otherwise the update applies iff the index is not deleted |
| ReactionSetup.AddNodesContents | gui/src/analysis/dynamicsim/hierarchical/util/setup/ReactionSetup.java:22-37 | after the node pass a reaction id has a node iff it had one or some reaction with that id is neither deleted by SId nor arrayed; such a node is fresh (sparse state, value 0 at the model index) and every other entry is as before |
| ReactionSetup.RatesDecision | gui/src/analysis/dynamicsim/hierarchical/util/setup/ReactionSetup.java:79-118 | a reverse rate exists iff the reaction is reversible, splitting is on and the inlined law splits; then forward and reverse are the parsed halves, otherwise the forward rate is the whole inlined law |
| ReactionSetup.CallsPerReference | gui/src/analysis/dynamicsim/hierarchical/util/setup/ReactionSetup.java:51-58 | the k-th reactant (product) call registers the k-th reactant (product) of the reaction |
| ReactionSetup.WireCallsOrder | gui/src/analysis/dynamicsim/hierarchical/util/setup/ReactionSetup.java:51-118 | for one reaction every reactant is registered, then every product; without a kinetic law nothing else happens; with one the forward rate is set next and exactly one molecule check comes last, after the rates |
| ReactionSetup.HierarchicalModel.SetupReactions | gui/src/analysis/dynamicsim/hierarchical/util/setup/ReactionSetup.java:19-39 | local parameters are set up once for every reaction in order, deleted and arrayed ones included, and the node map becomes the node-pass result |
| ReactionSetup.HierarchicalModel.RegisterReferences | gui/src/analysis/dynamicsim/hierarchical/util/setup/ReactionSetup.java:51-58 | the two loops log all reactant registrations and then all product registrations, in list order |
| ReactionSetup.HierarchicalModel.SetRates | gui/src/analysis/dynamicsim/hierarchical/util/setup/ReactionSetup.java:79-118 | the node gets the decided forward rate and, when present, the reverse rate; the calls are forward, optional reverse, then the molecule check |
| ReactionSetup.HierarchicalModel.WireReaction | gui/src/analysis/dynamicsim/hierarchical/util/setup/ReactionSetup.java:49-64 | one loop iteration wires a reaction as the per-reaction specification says, failing exactly when it has a kinetic law but no node |
| ReactionSetup.HierarchicalModel.SetupSpeciesReferenceToReaction | gui/src/analysis/dynamicsim/hierarchical/util/setup/ReactionSetup.java:41-66 | deleted reactions are skipped; every other reaction is wired in order; the pass fails iff some wired reaction has a law but no node, and otherwise the calls and nodes are exactly those of the whole-pass specification |
| ReactionSetup.SetupSingleReaction | gui/src/analysis/dynamicsim/hierarchical/util/setup/ReactionSetup.java:79-118 | the method returns the rate pair the decision specifies, inlining before any parsing |
| SimulatorSetup.SetupCompartments | gui/src/analysis/dynamicsim/hierarchical/simulator/HierarchicalSetup.java:65-85 | the loop makes, in order, each kept compartment's single setup, array setup and array-value setup, and nothing for a deleted one |
| SimulatorSetup.CompartmentSetUpIff | gui/src/analysis/dynamicsim/hierarchical/simulator/HierarchicalSetup.java:68-79 | a compartment id gets its single setup iff some compartment with that id is deleted neither by SId nor by meta-id |
| SimulatorSetup.SetupSpecies | gui/src/analysis/dynamicsim/hierarchical/simulator/HierarchicalSetup.java:435-461 | the loop makes, in order, each kept species' single setup, array setup and array-value setup |
| SimulatorSetup.SpeciesSetUpIff | gui/src/analysis/dynamicsim/hierarchical/simulator/HierarchicalSetup.java:439-453 | a species id gets its single setup iff some species with that id is deleted neither by SId nor by meta-id |
| SimulatorSetup.ConstraintIdsDistinct | gui/src/analysis/dynamicsim/hierarchical/simulator/HierarchicalSetup.java:106 | two constraint ids are equal iff their counters are, so every kept constraint gets its own id |
| SimulatorSetup.SetupConstraints | gui/src/analysis/dynamicsim/hierarchical/simulator/HierarchicalSetup.java:90-115 | the no-constraints flag is cleared iff the model has constraints; the calls are those of the kept constraints, numbered in order, with the single setup only for non-arrayed ids |
| SimulatorSetup.SetupKeptConstraints | gui/src/analysis/dynamicsim/hierarchical/simulator/HierarchicalSetup.java:100-113 | the loop with its running counter makes exactly the calls of the kept constraints numbered consecutively from 0 |
| SimulatorSetup.ConstraintIdsNumbered | gui/src/analysis/dynamicsim/hierarchical/simulator/HierarchicalSetup.java:93-106 | with n kept constraints the ids used are exactly `constraint_0` .. `constraint_(n-1)` |
| SimulatorSetup.KeptConstraintsIff | gui/src/analysis/dynamicsim/hierarchical/simulator/HierarchicalSetup.java:102-105 | a constraint is kept iff it is in the list and not deleted by meta-id; SId deletion plays no part |
| SimulatorSetup.SetupEventAssignments | gui/src/analysis/dynamicsim/hierarchical/simulator/HierarchicalSetup.java:254-272 | assignments deleted by meta-id are skipped; every other gets its array-object setup and, unless `<event>_<variable>` is arrayed, its single setup |
| SimulatorSetup.SetupSingleEvent | gui/src/analysis/dynamicsim/hierarchical/simulator/HierarchicalSetup.java:145-159 | a non-arrayed event gets its single setup, then its priority only if it has one, its delay only if it has one, then its assignments |
| SimulatorSetup.SetupEvents | gui/src/analysis/dynamicsim/hierarchical/simulator/HierarchicalSetup.java:120-163 | the loop makes each kept event's array setups and, for a non-arrayed id, its single-event part, in event order |
| SimulatorSetup.EventPrioritySetUpIff | gui/src/analysis/dynamicsim/hierarchical/simulator/HierarchicalSetup.java:130-152 | a priority is set up for an id iff some event with it is kept, not arrayed and has a priority |
| SimulatorSetup.EventDelaySetUpIff | gui/src/analysis/dynamicsim/hierarchical/simulator/HierarchicalSetup.java:130-157 | a delay is set up for an id iff some event with it is kept, not arrayed and has a delay |
| SimulatorSetup.EventAssignmentSetUpIff | gui/src/analysis/dynamicsim/hierarchical/simulator/HierarchicalSetup.java:256-270 | an event assignment to a variable is set up iff one is kept by meta-id and its `<event>_<variable>` id is not arrayed |
| SimulatorSetup.SetupInitialAssignments | gui/src/analysis/dynamicsim/hierarchical/simulator/HierarchicalSetup.java:165-185 | the map gains the math of each kept, non-arrayed initial assignment under its variable, every kept one gets its array setups, and the library computation comes last |
| SimulatorSetup.InitMapDomain | gui/src/analysis/dynamicsim/hierarchical/simulator/HierarchicalSetup.java:168-180 | a variable has an initial assignment afterwards iff it had one or some applied assignment targets it, and untargeted entries stay as they were |
| SimulatorSetup.InitMapLastWins | gui/src/analysis/dynamicsim/hierarchical/simulator/HierarchicalSetup.java:179 | the last applied assignment to a variable is the one the map holds |
| SimulatorSetup.SetupNonConstantSpeciesReferences | gui/src/analysis/dynamicsim/hierarchical/simulator/HierarchicalSetup.java:187-252 | the reactants and then the products of every reaction, in order, are recorded one by one as the per-reference rule says |
| SimulatorSetup.RecordedValuesDomain | gui/src/analysis/dynamicsim/hierarchical/simulator/HierarchicalSetup.java:208-248 | a value exists afterwards iff it existed or some recorded reference has that id; existing values are never overwritten |
| SimulatorSetup.FirstStoichiometryWins | gui/src/analysis/dynamicsim/hierarchical/simulator/HierarchicalSetup.java:218-248 | the first recorded reference with an id that had no value sets that id's value to its stoichiometry |
| SimulatorSetup.RecordedFlags | gui/src/analysis/dynamicsim/hierarchical/simulator/HierarchicalSetup.java:208-244 | an id is printed iff it was or some recorded non-constant reference has it, and is constant iff it was or some recorded constant reference has it |
| SimulatorSetup.SetupLocalParameters | gui/src/analysis/dynamicsim/hierarchical/simulator/HierarchicalSetup.java:286-300 | the local parameters of each reaction whose kinetic law exists and is not deleted by meta-id are set up, in reaction order |
| SimulatorSetup.SetupSingleParameters | gui/src/analysis/dynamicsim/hierarchical/simulator/HierarchicalSetup.java:302-318 | each parameter not deleted is set up, in order |
| SimulatorSetup.SetupParameterArrays | gui/src/analysis/dynamicsim/hierarchical/simulator/HierarchicalSetup.java:320-327 | the array setup runs for every parameter, deleted ones included |
| SimulatorSetup.SetupParameters | gui/src/analysis/dynamicsim/hierarchical/simulator/HierarchicalSetup.java:277-329 | the three loops run in order: local parameters, single parameters, parameter arrays |
| SimulatorSetup.ParameterSetUpIff | gui/src/analysis/dynamicsim/hierarchical/simulator/HierarchicalSetup.java:304-318 | a parameter id gets its single setup iff some parameter with that id is not deleted |
| SimulatorSetup.ParameterArraysForAll | gui/src/analysis/dynamicsim/hierarchical/simulator/HierarchicalSetup.java:320-327 | array setup reaches every parameter, deleted or not |
| SimulatorSetup.LocalParametersIff | gui/src/analysis/dynamicsim/hierarchical/simulator/HierarchicalSetup.java:286-300 | a reaction's local parameters are set up iff it has a kinetic law not deleted by meta-id; deletion of the reaction itself plays no part |
| SimulatorSetup.SetupPropensities | gui/src/analysis/dynamicsim/hierarchical/simulator/HierarchicalSetup.java:331-340 | one propensity setup per reaction of the model state, in its iteration order |
| SimulatorSetup.PropensityIff | gui/src/analysis/dynamicsim/hierarchical/simulator/HierarchicalSetup.java:333-338 | a reaction gets a propensity setup iff it is one of the model state's reactions |
| SimulatorSetup.SetupReactions | gui/src/analysis/dynamicsim/hierarchical/simulator/HierarchicalSetup.java:348-385 | the loop skips deleted reactions, reactions without a kinetic law and replaced hierarchical degradation reactions outside `topmodel`, and sets up the rest in order |
| SimulatorSetup.ReactionSetUpIff | gui/src/analysis/dynamicsim/hierarchical/simulator/HierarchicalSetup.java:351-384 | a reaction is set up with its formula and reversibility iff it is kept, has a kinetic law and is not a skipped degradation reaction |
| SimulatorSetup.SetupRules | gui/src/analysis/dynamicsim/hierarchical/simulator/HierarchicalSetup.java:387-428 | the no-rule flag is cleared iff the rule list is non-empty; kept assignment and rate rules get their array setups and, unless arrayed, their single setup |
| SimulatorSetup.AssignmentRuleSetUpIff | gui/src/analysis/dynamicsim/hierarchical/simulator/HierarchicalSetup.java:403-414 | an assignment rule for v is set up iff one is kept by meta-id and `assignment_v` is not arrayed |
| SimulatorSetup.RateRuleSetUpIff | gui/src/analysis/dynamicsim/hierarchical/simulator/HierarchicalSetup.java:415-425 | a rate rule for v is set up iff one is kept by meta-id and `rate_v` is not arrayed |
| SimulatorSetup.AlgebraicRulesIgnored | gui/src/analysis/dynamicsim/hierarchical/simulator/HierarchicalSetup.java:403-426 | algebraic rules produce no calls: dropping them leaves the calls unchanged |
| Rules.SelectPartition | gui/src/sbmleditor/Rules.java:562-606 | the algebraic, assignment and rate rules together are exactly the input rules, counted with multiplicity |
| Rules.DependsOnUnplaced | gui/src/sbmleditor/Rules.java:576-591 | the inner double loop decides exactly whether some token after the first names the variable of a still-unplaced assignment rule |
| Rules.TryPlace | gui/src/sbmleditor/Rules.java:572-597 | one inner iteration places an unplaced assignment rule iff nothing blocks it, appending it to the dependency-ordered middle; a rule left out is blocked |
| Rules.Pass | gui/src/sbmleditor/Rules.java:570-599 | one pass over the rules keeps the middle ordered and a permutation of the placed rules; a pass without progress leaves every unplaced assignment rule blocked |
| Rules.PlaceIfAlgebraic | gui/src/sbmleditor/Rules.java:562-568 | one iteration of the first loop appends an algebraic rule and marks it used, and changes nothing for any other rule |
| Rules.PlaceAlgebraic | gui/src/sbmleditor/Rules.java:559-568 | the algebraic rules come first in input order and are the only ones marked; the loop fails exactly when some rule string has no first token |
| Rules.PlaceAssignments | gui/src/sbmleditor/Rules.java:569-600 | the do-while loop ends with every rule placed or every unplaced assignment rule blocked |
| Rules.PlaceRates | gui/src/sbmleditor/Rules.java:601-606 | the rate rules are appended after the middle in input order, leaving what precedes them untouched |
| Rules.BlockedAreStuck | gui/src/sbmleditor/Rules.java:578-600 | when every unplaced assignment rule is blocked, those rules form a set each member of which reads a variable assigned inside the set: a dependency cycle |
| Rules.NoStuckSetInRuleOrder | gui/src/sbmleditor/Rules.java:570-600 | a valid rule order rules out any such cycle, so the exception is raised exactly when a cycle exists |
| Rules.Conclude | gui/src/sbmleditor/Rules.java:607-610 | with every rule placed the result is a valid order and a permutation of the input; otherwise a dependency cycle exists |
| Rules.SortRules | gui/src/sbmleditor/Rules.java:555-611 | a rule string without a first token fails; a dependency cycle among assignment rules (self-reference included) raises the exception, and it is raised only then; otherwise the result lists algebraic rules, then the assignment rules in an order where none reads a variable assigned by itself or a later one, then rate rules, as a permutation of the input |
| RuleList.FormulaText | gui/src/sbmleditor/Rules.java:869 | the formula handed to the parser is a suffix of the rule string: what follows its first "=", or all of it when there is none |
| RuleList.RecreateRuleKind | gui/src/sbmleditor/Rules.java:866-880 | a rule recreated from a string has the kind sortRules gives that string; recreating throws exactly when the string has no token, or its first token is "d(" with no second token |
| RuleList.RebuiltComplete | gui/src/sbmleditor/Rules.java:866-881 | rebuilding finishes without an exception iff every string recreates a rule, and then the list holds one rule per string, in the strings' order |
| RuleList.RebuiltFailure | gui/src/sbmleditor/Rules.java:866-881 | an exception comes from the first string that throws; the rules made before it stay in the model, followed by the empty rate rule that string created, if any |
| RuleList.RebuiltSticks | gui/src/sbmleditor/Rules.java:866-881 | once a string has thrown, the strings after it change nothing |
| RuleList.AlgebraicRoundTrip | gui/src/sbmleditor/Rules.java:83-85 | the display string "0 = f" is recreated as an algebraic rule whose formula text is f with its leading blank |
| RuleList.AssignmentRoundTrip | gui/src/sbmleditor/Rules.java:86-88 | the display string "v = f" of a variable without blanks or "=" is recreated as an assignment rule on v with formula text " f" |
| RuleList.RateRoundTrip | gui/src/sbmleditor/Rules.java:89-92 | the display string "d( v )/dt = f" is recreated as a rate rule on v with formula text " f" |
| RuleList.DisplayRoundTrip | gui/src/sbmleditor/Rules.java:83-92 | every displayable rule survives display followed by recreation, and sortRules classifies its display string as the rule's own kind |
| RuleList.RebuildFromDisplay | gui/src/sbmleditor/Rules.java:81-93 | rebuilding the list from the display strings of a rule list gives that list back, in order, and nothing throws |
| RuleList.RuleSet.constructor | gui/src/sbmleditor/Rules.java:79 | the rule list starts as the model's rules |
| RuleList.RuleSet.UpdateRules | gui/src/sbmleditor/Rules.java:861-882 | after clearing the list, the model holds exactly the rules the specification of rebuilding gives for the strings, and reports the index of the string that threw |
| RuleList.KeepVarAssignRule | gui/src/sbmleditor/Rules.java:887-911 | true iff the variable is the one being edited, or no initial assignment, event assignment, assignment rule or rate rule sets it |
| RuleList.KeepVarRateRule | gui/src/sbmleditor/Rules.java:916-925 | true iff the variable is the one being edited, or no rate rule sets it |
| RuleList.MayAssignThenMayRate | gui/src/sbmleditor/Rules.java:887-925 | a variable free for an assignment rule is free for a rate rule; the converse holds once initial assignments, event assignments and assignment rules are ruled out |
| RuleList.RateRuleBlocksOthers | gui/src/sbmleditor/Rules.java:887-925 | after a rate rule on a variable is added, only that variable's own editor may give it a rule of either kind |
| Zones.LowerOne | gui/src/verification/timed_state_exploration/zone/Zone.java:790-794 | lowering one DBM entry to a value that is its old entry or the weight of a finite walk keeps every entry at most the original and supported by it |
| Zones.Join | gui/src/verification/timed_state_exploration/zone/Zone.java:776-800 | two finite walks that meet at a timer join into one finite walk whose weight is the sum of theirs |
| Zones.Relaxed | gui/src/verification/timed_state_exploration/zone/Zone.java:790-794 | the relaxed value dbm(i,k) + dbm(k,j) of two supported, non-INFINITY entries is the weight of a finite walk from i to j |
| Zones.Zone.SetDbm | gui/src/verification/timed_state_exploration/zone/Zone.java:515-518 | DBM entry (i, j) takes the value; no other matrix cell changes |
| Zones.Zone.SetUpperBound | gui/src/verification/timed_state_exploration/zone/Zone.java:427-430 | the timer's upper bound, in row 0, takes the value; no other cell changes |
| Zones.Zone.SetLowerBound | gui/src/verification/timed_state_exploration/zone/Zone.java:475-478 | the timer's cell in column 0 takes the negated lower bound; no other cell changes |
| Zones.Zone.Relax | gui/src/verification/timed_state_exploration/zone/Zone.java:788-794 | one relaxation step changes at most entry (i, j), never raises it, and keeps every entry supported by the DBM the closure started from |
| Zones.Zone.RelaxRow | gui/src/verification/timed_state_exploration/zone/Zone.java:786-802 | the innermost loop changes only row i of the DBM, keeps the entries below and supported by the start, and throws exactly when the diagonal entry (i, i) is non-zero |
| Zones.Zone.RelaxAll | gui/src/verification/timed_state_exploration/zone/Zone.java:784-803 | the middle loop for pivot k leaves the bounds row and column alone and throws exactly when the pure round for pivot k would leave a non-zero diagonal entry; without an exception every diagonal entry is 0 and the DBM is that round of the one it started from |
| Zones.Zone.Recanonicalize | gui/src/verification/timed_state_exploration/zone/Zone.java:776-805 | the closure keeps both bounds of every timer, only lowers DBM entries, each to its old value or the weight of a finite walk through old entries; it throws DiagonalNonZeroException exactly when some round of the Floyd closure of the old DBM breaks the zero diagonal; otherwise the diagonal is all 0, the DBM is that closure, and it is closed (no entry above the sum of two through any timer) whenever no sum it forms reaches INFINITY |
| Zones.Zone.RelaxRound | gui/src/verification/timed_state_exploration/zone/Zone.java:782-804 | one pass of the outer loop, started from the first k rounds of the closure: it throws only when the closure of the old DBM breaks the zero diagonal, and otherwise leaves the first k+1 rounds with the diagonal kept 0 in each |
| Zones.Zone.RelaxRounds | gui/src/verification/timed_state_exploration/zone/Zone.java:780-804 | the outer loop throws exactly when some round of the closure breaks the zero diagonal; otherwise the DBM is the n-round Floyd closure of the old one, every entry below and supported by it |
| Zones.RoundsSupported | gui/src/verification/timed_state_exploration/zone/Zone.java:788-794 | every round of the closure only lowers entries, each to its original value or the weight of a finite walk in the original DBM |
| Zones.ClosureIsClosed | gui/src/verification/timed_state_exploration/zone/Zone.java:780-804 | when every round keeps the diagonal 0 and no sum reaches INFINITY, the closure is closed: no finite entry pair through a timer sums to less than the direct entry, and no such pair leaves the direct entry INFINITY |
| Zones.ClosureIdempotent | gui/src/verification/timed_state_exploration/zone/Zone.java:780-804 | closing a closed DBM with a zero diagonal changes nothing and throws nothing |
| Zones.OverflowDoesNotClose | gui/src/verification/timed_state_exploration/zone/Zone.java:788-794 | for a concrete four-timer DBM whose rounds keep the diagonal 0 but form the sum 5 + (INFINITY - 1), the closure as modelled on unbounded integers is not closed |
| Zones.Zone.Advance | gui/src/verification/timed_state_exploration/zone/Zone.java:1347-1354 | DBM row 0 takes every timer's upper bound; every other cell keeps its value |
| Zones.Zone.Restrict | gui/src/verification/timed_state_exploration/zone/Zone.java:1388-1394 | DBM entry (t, 0) takes the stored lower-bound cell of t; every other cell keeps its value |
| Zones.Zone.Equals | gui/src/verification/timed_state_exploration/zone/Zone.java:646-686 | true iff the other zone is not null and has the same timers and the same value in every matrix cell |
| Zones.Zone.Clone | gui/src/verification/timed_state_exploration/zone/Zone.java:1359-1380 | the clone has fresh arrays of its own and equals the original cell for cell |
| Zones.Zone.FromParts | gui/src/verification/timed_state_exploration/zone/Zone.java:347-349 | a zone built from given arrays holds exactly those arrays |
| Zones.Zone.Init | gui/src/verification/timed_state_exploration/zone/Zone.java:121-198 | the new zone's timers are the caller's, sorted behind the zero timer; each caller DBM entry (i, j) lands at the timers' new indices, and each non-zero timer's upper and lower bound moves with it |
| Zones.Zone.UpperBoundOf | gui/src/verification/timed_state_exploration/zone/Zone.java:391-406 | a timer of the zone yields its stored upper bound; an absent timer above the zero timer makes the matrix index negative and throws |
| Zones.Zone.LowerBoundOf | gui/src/verification/timed_state_exploration/zone/Zone.java:439-454 | a timer of the zone yields its stored lower-bound cell; an absent timer above the zero timer throws |
| Zones.Zone.ExceedsLowerBoundOf | gui/src/verification/timed_state_exploration/zone/Zone.java:809-830 | for a timer of the zone, whether its upper bound is at most DBM entry (0, i); an absent timer above the zero timer throws |
| Zones.Zone.MergeTimers | gui/src/verification/timed_state_exploration/zone/Zone.java:1230-1301 | the two-index walk yields exactly the merged triples of both zones' timer arrays, its first entry named by the zero timer -1 (as written it is named 0, see Findings) |
| Zones.MergedEntryFromZones | gui/src/verification/timed_state_exploration/zone/Zone.java:1081-1153 | corrected (row i, the index in the zone holding both timers, INFINITY when no zone holds both): the merged entry for a pair of timers is this zone's entry when it holds both, the other zone's when it holds both and they do not clash, and INFINITY when no zone holds both |
| Zones.InZoneIndex | gui/src/verification/timed_state_exploration/zone/Zone.java:1230-1301 | a merged triple records an index in a zone exactly when that zone holds the timer, and the index is the timer's position there |
| Zones.MergedDbm | gui/src/verification/timed_state_exploration/zone/Zone.java:1081-1152 | the merged DBM is square over the merged timers, and each entry is the merged entry of its pair of timers |
| Zones.AnyClashIff | gui/src/verification/timed_state_exploration/zone/Zone.java:1085-1098 | the zones clash iff some pair of merged timers is common to both and their entries differ |
| Zones.FillRow | gui/src/verification/timed_state_exploration/zone/Zone.java:1083-1153 | corrected (row i, the index in the zone holding both timers, INFINITY when no zone holds both): one row of the loop nest reports a clash iff a pair in that row clashes; otherwise it fills that row with the merged entries, and no other row or the bounds column changes |
| Zones.FillMerged | gui/src/verification/timed_state_exploration/zone/Zone.java:1081-1153 | corrected (row i, the index in the zone holding both timers, INFINITY when no zone holds both): the loop nest reports a clash iff some pair clashes; otherwise every DBM cell holds its merged entry; the bounds row and column are untouched |
| Zones.BuildMerge | gui/src/verification/timed_state_exploration/zone/Zone.java:1069-1155 | corrected (row i, the index in the zone holding both timers, INFINITY when no zone holds both): mergeZones after mergeTimers: IncompatibleZoneException iff the zones clash, and otherwise a fresh valid zone over the merged timers whose DBM is the merged DBM and whose bounds are 0 |
| Zones.Zone.MergeZones | gui/src/verification/timed_state_exploration/zone/Zone.java:1049-1155 | corrected (row i, the index in the zone holding both timers, INFINITY when no zone holds both, zero timer named -1): Incompatible iff the zones clash on common timers; otherwise a fresh, valid zone over the merged sorted timers, each DBM entry the merged entry |
| Zones.MergeZonesAsWrittenMisplaces | gui/src/verification/timed_state_exploration/zone/Zone.java:1153 | for two concrete zones mergeZones as written puts the entry for (timer 9, zero) in the row of index1 (row 1, timer 1) and leaves row 2 zero, while the merged DBM has -3 and -2 there |
| Zones.MergeZonesAsWrittenReadsWrongEntry | gui/src/verification/timed_state_exploration/zone/Zone.java:1143-1153 | on the same two zones mergeZones as written reads this zone's entry (0, 0) for the pair (timer 1, zero timer), where the other zone holds -3, and reads 5 for the pair (timer 1, timer 9) that no zone holds, where the corrected merge puts INFINITY |
| Zones.ExampleMergedDbm | gui/src/verification/timed_state_exploration/zone/Zone.java:1081-1152 | on the same two zones the corrected merge holds -3 in row 1 and -2 in row 2 of column 0 |
| Zones.DbmOfTimers | gui/src/verification/timed_state_exploration/zone/Zone.java:174-197 | the constructor's copy loops put each caller DBM entry and each non-zero timer's bounds at the timers' new indices in a fresh matrix |
| Zones.TimerArray | gui/src/verification/timed_state_exploration/zone/Zone.java:126-143 | the fresh timer array is the caller's timers sorted behind the zero timer, strictly ascending |
| Zones.MergeCommon | gui/src/verification/timed_state_exploration/zone/Zone.java:1246-1270 | the first loop of mergeTimers stops when one array is used up, with what it wrote followed by the rest of the merge equal to the whole merge |
| Zones.MergeRest | gui/src/verification/timed_state_exploration/zone/Zone.java:1272-1301 | the tail loops of mergeTimers copy what is left of either array, completing the whole merge |
| Zones.Construct | gui/src/verification/timed_state_exploration/zone/Zone.java:121-201 | the constructor with the zero timer also for empty input: never IndexOutOfBounds; it throws DiagonalNonZero exactly when the closure of the copied DBM breaks the zero diagonal; a built zone is valid over the sorted timers, holds the Floyd closure of the copied DBM (closed when no sum reaches INFINITY), has a zero diagonal, no DBM entry above the caller's, and the caller's bounds at the new indices |
| Zones.ConstructAsWritten | gui/src/verification/timed_state_exploration/zone/Zone.java:127-133 | the constructor as written throws ArrayIndexOutOfBoundsException exactly when no timer is passed |
| Zones.BoundsByTransition | gui/src/verification/timed_state_exploration/zone/Zone.java:391-454 | after construction, looking a timer up by its transition index yields the bounds the caller gave for it |
| ZoneTimers.SortSeq | gui/src/verification/timed_state_exploration/zone/Zone.java:126-130 | the sorted copy of the timers is a permutation of them, strictly ascending when the timers are distinct |
| ZoneTimers.InsertSorted | gui/src/verification/timed_state_exploration/zone/Zone.java:130 | inserting a new timer into a strictly ascending array keeps it strictly ascending |
| ZoneTimers.CountBelowSplits | gui/src/verification/timed_state_exploration/zone/Zone.java:168 | in a sorted array, the timers before the insertion point are smaller than the key and the rest are at least the key |
| ZoneTimers.BinarySearch | gui/src/verification/timed_state_exploration/zone/Zone.java:168 | Arrays.binarySearch: a non-negative result is the key's position; a negative one means the key is absent and encodes its insertion point as -(point) - 1 |
| ZoneTimers.SearchFinds | gui/src/verification/timed_state_exploration/zone/Zone.java:391-393 | searching a sorted array for its own entry finds that entry's position |
| ZoneTimers.IndexToTimer | gui/src/verification/timed_state_exploration/zone/Zone.java:126-143 | _indexToTimer has the zero timer first, followed by a permutation of the caller's timers |
| ZoneTimers.IndexToTimerSorted | gui/src/verification/timed_state_exploration/zone/Zone.java:126-143 | _indexToTimer is strictly ascending for distinct timers above the zero timer |
| ZoneTimers.NewIndex | gui/src/verification/timed_state_exploration/zone/Zone.java:163-172 | the new index of the caller's timer i is the position of that timer (the zero timer for i = 0) in _indexToTimer |
| ZoneTimers.NewIndexesMap | gui/src/verification/timed_state_exploration/zone/Zone.java:160-172 | the old-to-new index map sends 0 to 0, every other index to a non-zero index in range, and distinct indices to distinct ones |
| ZoneTimers.NewIndexOnto | gui/src/verification/timed_state_exploration/zone/Zone.java:160-172 | every index of the new DBM is the new index of some caller index, so the copy loop fills every DBM cell |
| ZoneTimers.MergeStep | gui/src/verification/timed_state_exploration/zone/Zone.java:1246-1301 | one step of the merge emits the smaller current timer (a common one once) and advances past exactly what it emitted |
| ZoneTimers.MergeFromMembers | gui/src/verification/timed_state_exploration/zone/Zone.java:1246-1301 | the merged timers are exactly the timers left in either array |
| ZoneTimers.MergeFromSorted | gui/src/verification/timed_state_exploration/zone/Zone.java:1246-1301 | merging two strictly ascending arrays gives a strictly ascending array |
| ZoneTimers.MergeFromIndexed | gui/src/verification/timed_state_exploration/zone/Zone.java:1246-1301 | every merged entry records the position of its timer in each zone it names |
| ZoneTimers.MergeFromShared | gui/src/verification/timed_state_exploration/zone/Zone.java:1246-1301 | an entry names both zones exactly when both hold its timer |
| ZoneTimers.MergedTriplesCorrect | gui/src/verification/timed_state_exploration/zone/Zone.java:1230-1301 | past the zero entry the merged timers are exactly the non-zero timers of either zone, strictly ascending and above the zero timer, correctly indexed, and shared exactly when common |
| ZoneTimers.MergedTimersValid | gui/src/verification/timed_state_exploration/zone/Zone.java:1230-1301 | with the zero entry named -1 the merged timer array is a valid _indexToTimer: the zero timer first, strictly ascending |
| ZoneTimers.MergedTriplesAsWritten | gui/src/verification/timed_state_exploration/zone/Zone.java:1244 | with the zero entry named 0 as written, the merged array does not start with the zero timer, and is not strictly ascending when a zone holds timer 0 |
| LpnState.UpdateChangesIff | gui/src/verification/platu/stategraph/State.java:340-356 | the loop reports a new state exactly when the updated vector differs from the current one |
| LpnState.UpdateIdempotent | gui/src/verification/platu/stategraph/State.java:340-356 | applying the same assignment twice gives the vector of applying it once, and the second application reports no change |
| LpnState.LocalVectorProjects | gui/src/verification/platu/stategraph/State.java:294-302 | zeroing the input variables is idempotent, and leaves a vector unchanged exactly when its inputs are already 0 |
| LpnState.EnabledBelowSpec | gui/src/verification/platu/stategraph/State.java:315-323 | the list holds exactly the indices of the enabled transitions, each once, in increasing order |
| LpnState.StringHash | gui/src/verification/platu/stategraph/State.java:192 | the label's String.hashCode stays within 32-bit int range, wrapping as Java does |
| LpnState.IntsHash | gui/src/verification/platu/stategraph/State.java:193-194 | Arrays.hashCode of an int array stays within 32-bit int range |
| LpnState.BoolsHash | gui/src/verification/platu/stategraph/State.java:195 | Arrays.hashCode of a boolean array stays within 32-bit int range |
| LpnState.StateHash | gui/src/verification/platu/stategraph/State.java:188-197 | the combined state hash stays within 32-bit int range |
| LpnState.State.Init | gui/src/verification/platu/stategraph/State.java:47-61 | the new state holds the given LPN and arrays themselves (not copies), index 0, no cached hash, not local-enabled-only |
| LpnState.State.Copy | gui/src/verification/platu/stategraph/State.java:63-83 | the copy has fresh arrays with the same contents, the same LPN, index and flag, a cleared hash, and equals the original |
| LpnState.State.Equals | gui/src/verification/platu/stategraph/State.java:203-232 | two states are equal iff the other is not null and they share the LPN and have equal markings, vectors and transition vectors element by element |
| LpnState.State.HashCode | gui/src/verification/platu/stategraph/State.java:188-201 | the hash is computed from the LPN label and the three arrays on first use and cached; once cached, the cached value is returned |
| LpnState.State.LocalState | gui/src/verification/platu/stategraph/State.java:284-305 | a new state over the same marking and transition vector whose vector keeps output and internal variables and zeroes inputs; without an LPN the call throws |
| LpnState.State.EnabledTransitions | gui/src/verification/platu/stategraph/State.java:315-323 | the result lists exactly the enabled transition indices, in increasing order |
| LpnState.State.UpdatedArray | gui/src/verification/platu/stategraph/State.java:342-356 | a fresh vector holding the updated values, and a flag set exactly when some assigned value differs |
| LpnState.State.Update | gui/src/verification/platu/stategraph/State.java:340-365 | null exactly when no assigned value differs; otherwise a fresh state over the same marking with the updated vector and the recomputed transition vector, which is not equal to the receiver |
| LpnState.State.UpdateWithTransitions | gui/src/verification/platu/stategraph/State.java:374-400 | as written: null exactly when no value changes and the same transition-vector object is passed; a different array with the same elements yields a new state equal to the receiver |
| LpnState.State.UpdateWithTransitionsByContent | gui/src/verification/platu/stategraph/State.java:374-400 | corrected: null exactly when no value changes and the transition vectors have the same elements; any state returned differs from the receiver |
| DecomposedGraphs.AddedOnce | synthesis/src/main/java/edu/utah/ece/async/ibiosim/synthesis/GeneticGates/DecomposedGraph.java:64-68 | adding a node leaves it in the list, adds nothing else, keeps the old order in front, and keeps the list free of duplicates |
| DecomposedGraphs.AddedOnceIdempotent | synthesis/src/main/java/edu/utah/ece/async/ibiosim/synthesis/GeneticGates/DecomposedGraph.java:64-68 | adding the same node twice is adding it once |
| DecomposedGraphs.AddedAllSpec | synthesis/src/main/java/edu/utah/ece/async/ibiosim/synthesis/GeneticGates/DecomposedGraph.java:57-62 | after adding several nodes the list holds exactly the old nodes and the new ones, old ones first, without duplicates |
| DecomposedGraphs.Put | synthesis/src/main/java/edu/utah/ece/async/ibiosim/synthesis/GeneticGates/DecomposedGraph.java:52-55 | HashMap.put: the key now maps to the new interaction type; every other key keeps its entry |
| DecomposedGraphs.PutKeys | synthesis/src/main/java/edu/utah/ece/async/ibiosim/synthesis/GeneticGates/DecomposedGraph.java:52-55 | put adds the key to the map's key list at most once and adds no other key |
| DecomposedGraphs.LinkBoth | synthesis/src/main/java/edu/utah/ece/async/ibiosim/synthesis/GeneticGates/DecomposedGraph.java:52-55 | putting the child in the parent's child map and the parent in the child's parent map keeps every child link matched by a parent link of the same type |
| DecomposedGraphs.ParentStepFacts | synthesis/src/main/java/edu/utah/ece/async/ibiosim/synthesis/GeneticGates/DecomposedGraph.java:86-122 | examining one node's parents only extends the sorted list, with nodes already queued, the node or its parents, never repeating a sorted node; the queue gains only the node and its parents |
| DecomposedGraphs.ParentStepStopsAtSingleChild | synthesis/src/main/java/edu/utah/ece/async/ibiosim/synthesis/GeneticGates/DecomposedGraph.java:87-90 | a parent with a single child is queued and ends the examination of the remaining parents |
| DecomposedGraphs.DecomposedGraph.constructor | synthesis/src/main/java/edu/utah/ece/async/ibiosim/synthesis/GeneticGates/DecomposedGraph.java:28-31 | a new graph has empty node and leaf lists, no links and no output node |
| DecomposedGraphs.DecomposedGraph.SetNodeAsOutput | synthesis/src/main/java/edu/utah/ece/async/ibiosim/synthesis/GeneticGates/DecomposedGraph.java:33-35 | the output node is set; nothing else changes |
| DecomposedGraphs.DecomposedGraph.SetNodeAsLeaf | synthesis/src/main/java/edu/utah/ece/async/ibiosim/synthesis/GeneticGates/DecomposedGraph.java:37-42 | the node is added to the leaf list unless already there; nothing else changes |
| DecomposedGraphs.DecomposedGraph.AddNode | synthesis/src/main/java/edu/utah/ece/async/ibiosim/synthesis/GeneticGates/DecomposedGraph.java:64-68 | the node is added to the node list unless already there; nothing else changes |
| DecomposedGraphs.DecomposedGraph.AddAllNodes | synthesis/src/main/java/edu/utah/ece/async/ibiosim/synthesis/GeneticGates/DecomposedGraph.java:57-62 | each node is added in turn, exactly as repeated addNode; nothing else changes |
| DecomposedGraphs.DecomposedGraph.AddNodeRelationship | synthesis/src/main/java/edu/utah/ece/async/ibiosim/synthesis/GeneticGates/DecomposedGraph.java:52-55 | the parent's child map and the child's parent map both record the interaction type, the graph stays symmetric, and the node lists and output node are unchanged |
| DecomposedGraphs.DecomposedGraph.ProcessParents | synthesis/src/main/java/edu/utah/ece/async/ibiosim/synthesis/GeneticGates/DecomposedGraph.java:86-122 | the inner loop over a node's parents computes exactly the parent step on the sorted list and the queue |
| DecomposedGraphs.DecomposedGraph.Visit | synthesis/src/main/java/edu/utah/ece/async/ibiosim/synthesis/GeneticGates/DecomposedGraph.java:82-122 | processing an unsorted queue head sorts it and keeps the sort invariant, so the set of unsorted reachable nodes shrinks |
| DecomposedGraphs.DecomposedGraph.TopologicalSort | synthesis/src/main/java/edu/utah/ece/async/ibiosim/synthesis/GeneticGates/DecomposedGraph.java:74-125 | the sort terminates; its result holds each node at most once, starts with the first leaf (empty without leaves), and holds only nodes reachable from a leaf through parent and child links |
| FluxBalance.ErrorCodeSpec | gui/src/analysis/fba/FluxBalanceAnalysis.java:204-211 | a solver failure maps to -2, -3 or -4 exactly for the three known messages, and to -5 for any other message |
| FluxBalance.RenderedJoinsTerms | gui/src/analysis/fba/FluxBalanceAnalysis.java:43-59 | the rendered objective is its non-zero terms joined by " + ", and is empty exactly when every listed reaction's coefficient is 0 |
| FluxBalance.VectorToString | gui/src/analysis/fba/FluxBalanceAnalysis.java:43-59 | the loop builds exactly the rendering of the objective's coefficients over the reaction index's keys |
| FluxBalance.FirstSeenSpec | gui/src/analysis/fba/FluxBalanceAnalysis.java:63-70 | the indexed reactions are exactly those of the flux bounds, each once, in order of first appearance |
| FluxBalance.PositionsSpec | gui/src/analysis/fba/FluxBalanceAnalysis.java:63-70 | each reaction of a duplicate-free list maps to its position in the list, and only those reactions are keys |
| FluxBalance.ReactionIndexSpec | gui/src/analysis/fba/FluxBalanceAnalysis.java:63-70 | the reaction index has one key per reaction named by a flux bound, numbered 0, 1, ... in order of first appearance |
| FluxBalance.ReactionIndex | gui/src/analysis/fba/FluxBalanceAnalysis.java:63-70 | the loop builds exactly the first-appearance index of the flux bounds' reactions |
| FluxBalance.DotRow | gui/src/analysis/fba/FluxBalanceAnalysis.java:96-109 | a row with a single entry v at column k contributes v times the k-th flux, and nothing when k is out of range |
| FluxBalance.ObjectiveVector | gui/src/analysis/fba/FluxBalanceAnalysis.java:73-80 | the objective has one coefficient per reaction of the model, or fails with the Java exception the lookup or the store throws |
| FluxBalance.ObjectiveSpec | gui/src/analysis/fba/FluxBalanceAnalysis.java:73-80 | the objective is built iff every flux objective's reaction is indexed below the reaction count; maximising negates every coefficient of minimising; reactions without a flux objective get 0 |
| FluxBalance.ObjectiveArray | gui/src/analysis/fba/FluxBalanceAnalysis.java:73-80 | the loop fills a fresh array with exactly the objective vector, or ends with the same exception |
| FluxBalance.InequalityMeaning | gui/src/analysis/fba/FluxBalanceAnalysis.java:94-111 | a GREATER_EQUAL bound becomes the constraint -x + b <= 0, which holds iff the flux is at least b; LESS_EQUAL becomes x - b <= 0, which holds iff the flux is at most b; other operations give no inequality |
| FluxBalance.InequalityArray | gui/src/analysis/fba/FluxBalanceAnalysis.java:92-112 | the loop fills the inequality array with the constraints of the non-EQUAL bounds, in order, leaving no gap |
| FluxBalance.ReactionsAddColumn | gui/src/analysis/fba/FluxBalanceAnalysis.java:125-139 | corrected (net stoichiometry, products minus reactants): accumulated over every reaction, each stoichiometry column gains the species' net stoichiometry in the reaction of that column |
| FluxBalance.NetSpeciesRowEntries | gui/src/analysis/fba/FluxBalanceAnalysis.java:121-141 | corrected: each entry of a species row is the species' net stoichiometry (products minus reactants) in that column's reaction |
| FluxBalance.ProductOverwritesReactant | gui/src/analysis/fba/FluxBalanceAnalysis.java:130-136 | as written, for E + S -> E + P the product's store overwrites the reactant's, giving E the coefficient 1 instead of its net 0 |
| FluxBalance.SpeciesRowCount | gui/src/analysis/fba/FluxBalanceAnalysis.java:114-141 | one steady-state row per species without a boundary condition |
| FluxBalance.BoundRowCount | gui/src/analysis/fba/FluxBalanceAnalysis.java:142-150 | one fixed-flux row per EQUAL bound |
| FluxBalance.FixedFluxMeaning | gui/src/analysis/fba/FluxBalanceAnalysis.java:142-150 | the row written for an EQUAL bound states exactly that the bound's flux equals its value |
| FluxBalance.AddRefs | gui/src/analysis/fba/FluxBalanceAnalysis.java:127-138 | corrected (net stoichiometry, products minus reactants): the loop over one reaction's reactants or products leaves the species row as the fold of its references specifies, or ends with its exception; other rows are untouched |
| FluxBalance.FillSpeciesRow | gui/src/analysis/fba/FluxBalanceAnalysis.java:125-139 | corrected (net stoichiometry, products minus reactants): the loop over all reactions fills a species row as the fold over the reactions specifies, or ends with its exception; other rows are untouched |
| FluxBalance.CountEquals | gui/src/analysis/fba/FluxBalanceAnalysis.java:85-90 | the loop counts exactly the EQUAL bounds |
| FluxBalance.CountNonBoundary | gui/src/analysis/fba/FluxBalanceAnalysis.java:114-118 | the loop counts exactly the species without a boundary condition |
| FluxBalance.FillSteadyState | gui/src/analysis/fba/FluxBalanceAnalysis.java:121-141 | corrected (net stoichiometry, products minus reactants): the first rows of the matrix are the net-stoichiometry rows of the non-boundary species, in order, or the first exception; the rows below stay 0 |
| FluxBalance.FillFixedFluxes | gui/src/analysis/fba/FluxBalanceAnalysis.java:142-150 | below the steady-state rows, each EQUAL bound writes its unit row and its value in the right-hand side, in order, or the lookup's exception; the rows above are untouched |
| FluxBalance.EqualityMatrix | gui/src/analysis/fba/FluxBalanceAnalysis.java:114-150 | corrected (net stoichiometry, products minus reactants): the equality system built in place is exactly the steady-state rows followed by the fixed-flux rows, with a right-hand side of zeros followed by the EQUAL bounds' values |
| FluxBalance.ActiveObjectiveSpec | gui/src/analysis/fba/FluxBalanceAnalysis.java:71-72 | the objective solved is the first one whose id is the active objective; there is none iff no id matches |
| FluxBalance.PerformFluxBalanceAnalysis | gui/src/analysis/fba/FluxBalanceAnalysis.java:61-216 | corrected (net stoichiometry, products minus reactants): the method returns exactly the outcome the specification of the analysis gives for the model and the solver |
| FluxBalance.FbaOutcomeSpec | gui/src/analysis/fba/FluxBalanceAnalysis.java:61-216 | -1 without an FBC model or without an active objective; otherwise the solver's code, -2..-5 for a failure message, a null-pointer exception for a failure without one; the only exceptions are the null pointer and the index out of bounds |
| FluxBalance.InequalitiesMeaning | gui/src/analysis/fba/FluxBalanceAnalysis.java:92-112 | a flux vector satisfies every constructed inequality iff it keeps every GREATER_EQUAL and LESS_EQUAL bound |
| FluxBalance.FixedFluxesMeaning | gui/src/analysis/fba/FluxBalanceAnalysis.java:142-150 | a flux vector satisfies every fixed-flux row iff each EQUAL bound's flux equals its value |

## Left out

- Graphical parts: the rule editor dialog, the unit checks of rules and `Rules.removeTheRule` (gui/src/sbmleditor/Rules.java) are not part of this model.
- I/O: `HierarchicalSetup.setupForOutput`, the result file written by the flux balance analysis, `Encodings.print` and every printing or `toString` helper other than those in the table.
- Foreign code becomes parameters of the model. This covers the math evaluator, `splitMath`, `inlineFormula`, `MathInterpreter.parseASTNode`, the `Setup.*`, `ParameterSetup` and `SpeciesReferenceSetup` calls, `ArraysSetup.checkArray` (an `arrayed` flag), `StateGraph.updateEnabledTranVector`, the linear-program solver and Java's `Double.toString` (a `render` function). Calls whose effect lies outside the model are entries of a call log, in order.
- `ModelState`, the simulator's model-state classes and the `setArrays` superclass are represented only by the call log and the maps the setup writes.
- SBML model objects are values; adding a species or a reaction appends it, and removing a species removes every species with that id.
- `GlobalConstants`, `sequesterSpecies` and the stoichiometry and open-complex parameters of the visitors are parameters.
- `AbstractPrintVisitor`'s other `visit*` methods do nothing and are not modelled.
- Formulas stay strings and units are abstract tags; nothing parses or simplifies a formula.
- Java `double` values are modelled as `real`: no rounding, infinities or NaN. Division by zero is excluded by preconditions instead. `FunctionNodes.FunctionNode.UpdateRate` requires a non-zero compartment size when the compartment rate is non-zero. `PrintComplex.RateConstantsSpec` requires `kc[1] != 0` when two rate constants are given.
- PrintComplex.PrintComplexVisitor.VisitComplex: requires `Loadable`, the species in the complex map (the source throws a null-pointer exception otherwise) and rate constants the constant fields can be computed from; so do PrintComplex.PrintComplexVisitor.Accept and PrintComplex.PrintComplexVisitor.Run for the complexes they visit.
- PrintSpecies.PrintSpeciesVisitor.CheckCompartments: requires `HasDefault`, at least one compartment, as `getCompartment(0)` does; so do the other PrintSpecies.PrintSpeciesVisitor visit methods, Accept and Run.
- PrintComplex.PrintComplexVisitor.VisitComplex: also requires `HasDefault`, for the same reason, and so do PrintComplex.PrintComplexVisitor.Accept and PrintComplex.PrintComplexVisitor.Run.
- `(-1) * x` is modelled as negation, and the tolerance, `Math.round` scaling and post-processing of the analysis' solution are left out.
- FluxBalance.PerformFluxBalanceAnalysis: a null active objective (a null-pointer exception in the source) is not modelled; the active objective is a string.
- HashMap iteration order is a given sequence of keys, fixed for each map (vectorToString, checkCompartments, the parent and child maps of the decomposed graph).
- Zones: `Zone(State)` and the `fire*` transitions are not part of this model; they need the LPN's delay expressions. `testSplit` and `toString` are left out.
- Zones.MergedEntryFromZones: states the corrected merge (row i instead of iIndex, the index of each timer in the zone holding both, INFINITY for a pair no zone holds) rather than the entries mergeZones writes as written; see Findings.
- Zones.FillRow: states the corrected merge (row i instead of iIndex, the index of each timer in the zone holding both, INFINITY for a pair no zone holds) rather than the entries mergeZones writes as written; see Findings.
- Zones.FillMerged: states the corrected merge (row i instead of iIndex, the index of each timer in the zone holding both, INFINITY for a pair no zone holds) rather than the entries mergeZones writes as written; see Findings.
- Zones.BuildMerge: states the corrected merge (row i instead of iIndex, the index of each timer in the zone holding both, INFINITY for a pair no zone holds) rather than the entries mergeZones writes as written; see Findings.
- Zones.Zone.MergeZones: states the corrected merge (row i instead of iIndex, the index of each timer in the zone holding both, INFINITY for a pair no zone holds) rather than the entries mergeZones writes as written; see Findings.
- Zones.Zone.Recanonicalize: closure of the result is stated only when no sum the closure forms reaches INFINITY; Zones.OverflowDoesNotClose shows it fails otherwise, where Java's `int` addition would overflow.
- Zones.Construct: closure of the built zone is stated under the same condition as for Zones.Zone.Recanonicalize.
- Zones: `int` is unbounded, so the overflow of `d(i,k) + d(k,j)` in recononicalize is not modelled; INFINITY is the largest 32-bit `int` and is never added.
- Zones.Construct and Zones.Zone.Init: require distinct, non-negative timers and a caller matrix of at least (n+2) x (n+2), as documented for the constructor; `Arrays.binarySearch` is only meaningful for such timers.
- Zones.Zone.Equals: the hash codes are not compared first; they are computed from the same contents, so the result is the same.
- LpnState.StateHash: the hash of the LPN's label is Java's `String.hashCode`; `LhpnFile.getLabel` and `LhpnFile.equals` are modelled by a label and structural equality.
- LpnState.State.EnabledTransitions: returns the indices of the enabled transitions; `LhpnFile.getTransition` is not part of this model.
- Null arrays in `State` and a null node in `DecomposedGraph` are not modelled. `DecomposedGraphNode` is known only by its identity and its two link maps.
- DecomposedGraphs.DecomposedGraph.TopologicalSort: does not state an order between parents and children, only no duplicates, the first leaf first and reachability from a leaf.
- Rules: a rule string is split into tokens by Java's `split(" ")`; the formula after "=" is handed to the parser as text.

## Findings

| source | as written | input that shows it | evidently intended | confidence | as-written member | corrected member |
|---|---|---|---|---|---|---|
| gui/src/verification/timed_state_exploration/zone/Zone.java:1153 | for a pair not held by both zones, `mergeZones` writes the entry at row `iIndex`, the timer's index in its own zone | this zone timers [-1, 9] with DBM [[0,5],[-2,0]], other zone [-1, 1] with [[0,7],[-3,0]]: row 1 gets -2 and row 2 stays 0 | write row `i` of the merged zone: rows 1 and 2 of column 0 hold -3 and -2 | not executed | Zones.MergeZonesAsWrittenMisplaces | Zones.Zone.MergeZones |
| gui/src/verification/timed_state_exploration/zone/Zone.java:1143-1153 | for a pair not held by both zones, the last branch reads zone `_zone1` of timer j at `_index2` of timer i, which is 0 for a timer of one zone; a pair no zone holds together reads an unrelated entry; the method is marked unfinished at line 1051 | this zone timers [-1, 9] with DBM [[0,5],[-2,0]], other zone [-1, 1] with [[0,7],[-3,0]]: the pair (1, zero timer) reads this zone's (0, 0) = 0 and the pair (1, 9) reads 5 | the entry of the zone that holds both timers at their indices there (-3 for (1, zero timer)), and INFINITY (no constraint) for a pair no zone holds | not executed | Zones.MergeZonesAsWrittenReadsWrongEntry | Zones.Zone.MergeZones |
| gui/src/verification/timed_state_exploration/zone/Zone.java:1244 | `mergeTimers` names the zero entry timer 0 | any two zones: the merged timer array starts with 0, not the zero timer -1; with a timer 0 in a zone, 0 appears twice | name it -1, so the merged array is a valid sorted timer array | not executed | ZoneTimers.MergedTriplesAsWritten | ZoneTimers.MergedTimersValid |
| gui/src/verification/timed_state_exploration/zone/Zone.java:133 | the constructor reads `_indexToTimer[0]` before adding the zero timer | `new Zone(new int[0], m)` throws ArrayIndexOutOfBoundsException | an empty timer array gives the zone of the zero timer alone | not executed | Zones.ConstructAsWritten | Zones.Construct |
| gui/src/verification/platu/stategraph/State.java:393 | `update(newVector, map, newTranVector)` compares the transition arrays with `equals`, which is reference equality on arrays | no variable changes and a copy of the current transition vector is passed: a new state comes back that equals the receiver | compare element by element (`Arrays.equals`) and return null | not executed | LpnState.State.UpdateWithTransitions | LpnState.State.UpdateWithTransitionsByContent |
| gui/src/analysis/fba/FluxBalanceAnalysis.java:130-136 | each species reference assigns `stoch[m][r]`, so a product overwrites a reactant of the same species | reaction R1 "E + S -> E + P", species E: the row of E is [1.0] | the net stoichiometry (products minus reactants): [0.0] | not executed | FluxBalance.ProductOverwritesReactant | FluxBalance.NetSpeciesRowEntries |
