# Decision procedures of `bynk-check`: a verification model

The Bynk checker contains a number of self-contained algorithms whose hard claims are stated in comments. This
project models them in Dafny and proves them for all inputs, or gives an input for which they fail and proves them under
the condition that excludes it.

- **Types and the interner** (`Types`, `TypeCore`, `TypePositions`, `Resolution`, `Interner`). `Ty` is the tree an interned id
  stands for; `Interner.TypeTable` is the hash-consing table itself, and it shows that comparing ids is comparing
  trees. `TypeCore` holds substitution, one-way unification and assignability, `TypePositions` what the last two mean
  position by position, `Resolution` the reading of written types and the instantiation of generic fields. Built-in constructors with one inner type share the
  constructor `Wrap`, those with two share `Pair`, those with none share `Atom`.
- **Boundary comparison** (`Boundary`, `BoundaryUniform`, `BoundaryExact`, `BoundaryCoherence`, `BoundaryCompose`,
  `BoundaryWalk`, `BoundaryValues`, `BoundaryInline`, `BoundaryMeaning`, `BoundaryCopies`, `BoundaryLimits`,
  `Refinements`). Two types from two declaration
  tables, walked in parallel. `Walk` says what the walk asks given which pairs of named types pass, `Passing` which pairs
  the checker lets pass while `visited` is being compared, and `Similar` is membership in a simulation, which never
  mentions `visited`. `BoundaryUniform` holds what generic declarations must keep to for the two to agree,
  `BoundaryCoherence` what declarations both tables share must; both ask it only of the pairs of declarations a comparison
  can meet (`Facing`, for any set `met` of pairs that leads to no others). `BoundaryWalk.Comparison` is the stateful walk.
  `BoundaryValues` gives types their meaning as sets of finite wire values, `BoundaryInline` says when inline refinements
  cross, `BoundaryMeaning` what is never accepted, `BoundaryCopies` what always is, and `BoundaryLimits` shows what the
  side conditions are for.
- **Projection of foreign types** (`Projection`).
- **Contract form and hash** (`Contract`, `ContractInvariance`, `ContractShapes`, `ContractUnfold`, `ContractReach`,
  `ContractWalk`, `ContractText`, `ContractHash`, `ContractService`, `ContractClash`, `ContractExamples`, `TextOrder`, `Fnv`). The canonical form as a tree, compared with two
  independent notions: equal declaration graphs (`SameGraph`, a bisimulation on declared names) and equal shapes
  (`SameShape`, closed types that unfold side by side for ever, each generic declaration at the types it is applied to).
  `ContractReach` shows that only the declarations a type reaches matter, for the form and for both notions.
  `ContractText` prints a form whose parts are in some order (`Spelled`) and shows that the text reads back in one way;
  `ContractHash` sorts the parts by their texts and brings the result to the text of a type, `ContractService` to the text
  of a service, which is what is hashed.
- **Message templates** (`Icu`, `IcuScanners`, `IcuProperties`, `IcuRoundTrip`, `IcuLanguage`, `IcuErrors`). `Icu` is the specification of the
  scanners and parsers as functions, `IcuScanners` the index loops proved to compute it, `IcuProperties` what holds of
  every text, `IcuRoundTrip` a printer and its inverse property, `IcuLanguage` the accepted language without the parser,
  `IcuErrors` what an error says of the rejected text.
- **Claim predicates** (`Claims`), **`is`-narrowing** (`Narrowing`), **rename validation** (`Rename`), **asset closure
  and fixed paths** (`Assets`).

How a few things are represented: `TypeDecl.identity` stands for the allocation `Arc::ptr_eq` compares and
`TypeDecl.span` for the declaration's place in its file. A declaration's own name is the key it is filed under
(`WellKeyed`), because a declaration re-filed under a qualified key is re-written to carry that key as its name
(`bynk-check/src/symbols.rs:1524-1530`). The object of claims a predicate is checked against (`Claims.Checked`) has the members of
every object, over them the claims that are signed, and over these what the test driver stamps, `sub` and `exp`
(`bynk-emit/src/project/tests_emit.rs:1180`); `__proto__`, which an object literal does not sign, counts as stamped with the
member every object has. `Claims.TokenValid` is what `bearer` verification asks of the payload before the predicate is
checked (`bynk-emit/runtime/src/auth.ts:57-67`). A wire value of an opaque type carries the name of the type that minted it, which no
wire shows: it stands for the promise that the value came from there. What predicates hold of which values is an uninterpreted relation `sat`, of
which only the agreement of `NonEmpty` with `MinLength(1)` is asked. In the forms and
in the rename check sorted lists are multisets, and sorted lists without repeats are sets.

Where the code and its comments part:

- The cycle key of the comparison is a pair of names, so a generic declaration that meets itself inside its own arguments
  is trusted there. `BoundaryLimits.GenericRevisitTrusted` gives two declarations that use their parameters crosswise,
  neither of them recursive, an accepted pair that is not similar, and a number the receiver takes for a positive one
  without a check. The comparison is exact as long as declarations that it can meet use their parameters in parallel
  (`BoundaryUniform.UniformUpToShared`, a condition on the declarations alone): `BoundaryExact.CompatIffSimilar`. Tables
  without type parameters keep to it, generic declarations written in the same words on both sides do, and a declaration
  both tables share need not, against itself. Declarations with different numbers of parameters, or with members of other
  names, are never compared. For the remaining generic declarations, walked member by member, only one direction is left:
  every similar pair is accepted (`BoundaryExact.SimilarCompat`). Termination and the restoring of `visited` hold for all tables.
- Inline refinements of record fields are not compared: `BoundaryLimits.InlineRefinementIgnored`. Values cross with all
  their inline refinements exactly when, in every accepted pair of records whose sender has values, the receiver writes no
  more on a field than the sender writes there or in the declaration of the field's type: `BoundaryInline.InlineExactly`.
- A declaration both tables share is taken for granted whatever its field types mean in each table:
  `BoundaryLimits.SharedDeclarationTrusted`. This is sound exactly where those that can be met are coherent
  (`BoundaryCoherence.CoherentExactly`); tables whose shared declarations are written alike and name only shared
  declarations are coherent (`BoundaryCoherence.SharedClosedCoherent`).
- The contract text does not separate a refined type's name from its base type, nor a list of predicates from the next
  list item. With a name that has no declaration and ends with a base type's name, or is `Positive` or `NonNegative`, two
  tables that do not match give one text: `ContractClash.SuffixClash`, `ContractClash.BarePredClash`. Without such names
  the text tells all forms apart (`ContractHash.TextIffForm`). In an accepted program no such name is left: the resolver
  rejects names without a declaration, and an inline refinement on one is rejected besides
  (`bynk-check/src/checker/refinements.rs:32-45`).
- A rename onto a name that another symbol of the unit and kind already has is the only way in which an accepted rename can
  fail to be a bijection (`Rename.AcceptedIsBijection`). Every symbol of a built index has its own definition site, at its
  own name (`bynk-check/src/symbols.rs:100-295`, `Rename.BuiltDistinct`), and over such an index that rename is refused
  (`Rename.TakenNameRejected`).
- The rename check refuses every rename of a declaration that owns members, however correct: the members' keys change with
  their owner's name, and the check expects them unchanged (`Rename.HonestAccepted`).
- The search promises a witness that the seam takes as it would a real token's. Three kinds of predicate fail: a claim that
  must be absent and that every object has as a member, such as `!hasClaim("constructor")`, though a false value could be
  signed (`Claims.AnsweredUnsigned`); a claim the driver stamps otherwise, such as `claimEquals("sub", "ops")` for another
  subject and `claimEquals("exp", …)` always, where nothing that can be signed is let through (`Claims.StampOverrides`);
  and whatever has `nbf` signed, because a witness signs no numbers: `hasClaim("nbf")` makes the token malformed, though a
  number would do (`Claims.StartRefused`).
  A witness is let through exactly when it signs no `nbf` and what the seam finds, the stamp or else the signed value or else
  the member, meets one of the claim sets found (`Claims.ClaimWitnessExact`, `Claims.SingleWitnessExact`). That there is no
  witness means that nothing signed would do; the converse holds where nothing is asked of stamped names nor of `nbf`
  (`Claims.NoWitnessExact`), and `Claims.AdmittedIffSignable` says of every predicate whether something signed would do.

## Model

| member | source | states |
|---|---|---|
| BoundaryExact.CompatIffSimilar | bynk-check/src/checker.rs:4470-4713 | as long as the declarations the comparison can meet use their type parameters in parallel, the comparison, with its path-based cycle cut, accepts exactly the pairs that some simulation between the two tables relates; what it cannot meet may be anything |
| BoundaryExact.PassingSupported | bynk-check/src/checker.rs:4660-4668 | the hard half: whatever passes in the middle of a comparison walks over the largest set of name pairs that may lean on the pairs still being compared |
| BoundaryUniform.BodiesTransfer | bynk-check/src/checker.rs:4774-4878 | what two declarations that use their parameters in parallel ask of each other does not depend on the arguments they are applied to |
| BoundaryUniform.InstantiateFacing | bynk-check/src/checker.rs:2460-2494 | instantiating members that use their parameters in parallel meets no pair of declarations but those the written members and the arguments meet |
| BoundaryUniform.ParameterFreeUniform | bynk-check/src/checker.rs:4774-4878 | tables without type parameters meet the condition, for all pairs of declarations together |
| BoundaryUniform.SameWordsUniform | bynk-check/src/checker.rs:2496-2549 | two declarations with the same parameters and members in the same words use their parameters in parallel, whatever the names in them mean in each table |
| BoundaryExact.SimulationPasses | bynk-check/src/checker.rs:4598-4713 | every pair of a simulation passes, any generic declarations included, whatever is already on the path |
| BoundaryExact.SimilarCompat | bynk-check/src/checker.rs:4598-4713 | a similar pair is accepted under every `visited`, generics included |
| BoundaryWalk.Comparison.Inner | bynk-check/src/checker.rs:4598-4713 | the stateful walk terminates on every pair of tables, answers what the recursive relation says, and leaves `visited` as it was on every exit |
| BoundaryWalk.Comparison.InnerNamed | bynk-check/src/checker.rs:4641-4671 | arguments first, then the cycle cut: a revisited pair is accepted, a new one is in `visited` only while its members are compared |
| BoundaryWalk.Comparison.CompareNamed | bynk-check/src/checker.rs:4741-4878 | two declarations compare equal exactly when they are one declaration or their members walk in parallel, `visited` restored |
| BoundaryWalk.StructurallyCompatible | bynk-check/src/checker.rs:4470-4478 | the entry point decides the relation with nothing visited |
| BoundaryMeaning.OpaqueKeepsName | bynk-check/src/checker.rs:4796-4821 | an opaque type is accepted, and accepts, under its own name and base only |
| BoundaryMeaning.StaysHomeRejected | bynk-check/src/checker.rs:4598-4713 | functions, actors, open variables, queries, streams and connections are never accepted, under any `visited` |
| BoundaryMeaning.BodiesWalkMeans | bynk-check/src/checker.rs:4774-4878 | counting members and looking each one up asks exactly that both sides have the same member names, that members of one name walk, and payloads field by field in order |
| BoundaryMeaning.AcceptedOutline | bynk-check/src/checker.rs:4741-4878 | accepted declarations in different places have one kind of body, one base and the same member names, taken for one declaration or not |
| BoundaryMeaning.SamePlaceAccepted | bynk-check/src/checker.rs:4757-4773 | one declaration on both sides is accepted whatever its members' types mean |
| BoundaryCopies.CopyAccepted | bynk-check/src/checker.rs:4598-4912 | what must be accepted: every type whose words cross, against a table that copies the declarations under other identities, places and names (opaque ones keep theirs), lists members in any order, drops or respells predicates, or takes a base type for a refined one |
| Refinements.CanonicalMeans | bynk-check/src/contract.rs:259-313 | canonical refinements are equal exactly when both sides ask for the same predicates, whatever their order, repeats and the spelling of `MinLength(1)` |
| BoundaryCoherence.CompatIffPlainSimilar | bynk-check/src/checker.rs:4757-4773 | where the shared declarations that can be met are coherent the one-declaration shortcut changes no answer: accepted pairs are exactly those whose declarations match member by member all the way down |
| BoundaryValues.CompatValues | bynk-check/src/checker.rs:4598-4878 | safety: every finite wire value of an accepted sender's type is a value of the receiver's type, up to the receiver's inline refinements, and altogether where these are covered |
| BoundaryValues.PlainReceiverValues | bynk-check/src/checker.rs:4598-4878 | a receiver without inline refinements gets only values of its own type from an accepted sender, whatever the sender writes |
| BoundaryInline.InlineExactly | bynk-check/src/checker.rs:4822-4841 | all values cross with all inline refinements if and only if every accepted pair of records with values is covered field by field |
| BoundaryValues.SimulationValues | bynk-check/src/checker.rs:4598-4878 | a simulation carries finite values across, through recursive and generic declarations, and their inline refinements where covered |
| BoundaryValues.RefinementsMatchValues | bynk-check/src/checker.rs:4903-4912 | matching refinements, the one-sided refined-to-unrefined case included, let through only values the receiver's predicates hold of |
| BoundaryLimits.GenericRevisitTrusted | bynk-check/src/checker.rs:4660-4668 | two non-recursive generic declarations with crossed parameters, an accepted pair that no simulation relates, and a value of the sender that is none of the receiver |
| BoundaryLimits.InlineRefinementIgnored | bynk-check/src/checker.rs:4822-4841 | two accepted records and a value of the first that the second's inline refinement rules out |
| BoundaryLimits.SharedDeclarationTrusted | bynk-check/src/checker.rs:4757-4773 | an accepted shared declaration whose field means different types in the two tables, and a value that tells |
| BoundaryCoherence.CoherentExactly | bynk-check/src/checker.rs:4757-4773 | taking shared declarations for granted is sound for all types that meet given pairs if and only if the shared declarations among the pairs are coherent |
| BoundaryCoherence.SharedClosedCoherent | bynk-check/src/checker.rs:4757-4773 | shared declarations written alike, whose members cross the boundary and name shared declarations only, make two tables coherent |
| Projection.ProjectedTypes | bynk-check/src/checker.rs:4498-4548 | the loop returns the caller's own declarations, for every agreed foreign name the declaration of the first context that has it, and as ambiguous exactly the names not agreed on |
| Projection.AllAgreeIffPairwise | bynk-check/src/checker.rs:4520-4541 | comparing each declaration with the first one settles every two contexts: one declaration, or two without parameters that match both ways |
| Projection.ProjectionOrderFree | bynk-check/src/checker.rs:4504-4548 | neither the projected nor the ambiguous names depend on the order of the contexts |
| Projection.ProjectedAnswersAlike | bynk-check/src/checker.rs:4484-4497 | a value of a projected name, at arguments that mean the same, is accepted or rejected alike, whichever declaring context it came from |
| BoundaryCompose.SimilarTransitive | bynk-check/src/checker.rs:4598-4878 | member-by-member similarity is transitive across any three tables, generic declarations included |
| ContractReach.CanonIffSameShape | bynk-check/src/contract.rs:82-258 | with generic declarations, as long as none that the types reach reaches itself (`bynk-syntax/src/ast.rs:2604-2615`): two types have one canonical form if and only if they unfold side by side for ever, up to field and variant order, predicate sets, opaque predicates, payload names and `Effect` |
| ContractReach.CanonNeeded | bynk-check/src/contract.rs:101-258 | the form reads no declaration but those the type reaches, whatever the others are |
| Contract.NonBoundaryExactly | bynk-check/src/contract.rs:101-172 | exactly functions, histories, queries, streams and connections have no form of their own, past `Effect` |
| ContractUnfold.FormsUnfold | bynk-check/src/contract.rs:101-258 | the hard half: equal forms met on the same path unfold side by side, up to trusting the names on the path |
| ContractUnfold.ShapesForm | bynk-check/src/contract.rs:101-258 | types that unfold side by side have equal forms wherever on a path they are met |
| ContractShapes.GenericNotSeen | bynk-check/src/contract.rs:173-190 | a generic declaration that does not reach itself is never cut to a back reference |
| ContractReach.CanonIffSameGraph | bynk-check/src/contract.rs:82-258 | where no declaration that is reached has type parameters, two types have one canonical form if and only if their reachable declaration graphs are equal up to field and variant order, predicate sets, opaque predicates, payload names and `Effect`: cutting cycles by `@Name` loses nothing |
| ContractReach.GraphTooFine | bynk-check/src/contract.rs:90-100 | for generic declarations shapes are the right notion and graphs are not: two declarations that use different parameters, at one type for both, have one form |
| Contract.MatchedIffMultisets | bynk-check/src/contract.rs:202-238 | sorting the rendered parts and comparing is pairing the parts off in some order |
| ContractInvariance.SameGraphSameForm | bynk-check/src/contract.rs:101-258 | with generics too, equal declaration graphs have equal forms, parameters being named differently on the two sides |
| ContractInvariance.RearrangedSameForm | bynk-check/src/contract.rs:101-313 | reordering or respelling reachable declarations (`NonEmpty` for `MinLength(1)`, repeated predicates) and changing unreachable ones in any way keeps the form |
| ContractInvariance.RenamedParameterSameForm | bynk-check/src/contract.rs:101-258 | renaming a type parameter of any declaration to a fresh name keeps the form |
| ContractInvariance.RenamedWellScoped | bynk-check/src/contract.rs:90-100 | and keeps every name in its scope |
| ContractService.ServiceTextIffSameContract | bynk-check/src/contract.rs:40-70 | the text that is hashed: two services have the same one if and only if their names agree, their parameters have the same names in the same order, and parameters and results have one shape |
| ContractService.Write | bynk-check/src/contract.rs:48-70 | the loop over the parameters writes the specified text |
| ContractExamples.PublishedForms | bynk-check/src/contract.rs:40-258 | the published normal forms of the example services and types, letter by letter (`site/src/content/docs/book/reference/wire-format.md:286-309`) |
| ContractHash.CanonTextIffSameShape | bynk-check/src/contract.rs:82-313 | with generic declarations, as long as none that is reached reaches itself, two types have the same text if and only if they have one shape |
| ContractHash.CanonTextIffSameGraph | bynk-check/src/contract.rs:82-313 | where no declaration that is reached has type parameters, two types have the same text if and only if their reachable declaration graphs are equal |
| ContractHash.TextIffForm | bynk-check/src/contract.rs:101-313 | two forms, generic applications included, have one text only if they are one form |
| ContractHash.SortedTextUnique | bynk-check/src/contract.rs:202-238 | in whatever order parts are listed, sorting each list by its rendered items leaves one text per form |
| ContractHash.SpellSorted | bynk-check/src/contract.rs:195-281 | the spelling whose text is hashed has every list sorted and no predicate twice |
| ContractHash.ForgetSpell | bynk-check/src/contract.rs:195-281 | sorting a form's parts gives a spelling of that same form |
| ContractHash.OrderedUnique | bynk-check/src/contract.rs:214-214 | two sorted lists with the same texts equally often are the same list |
| ContractClash.SuffixClash | bynk-check/src/contract.rs:202-256 | two tables with one text and no way to match their declarations, for every undeclared name that ends with a base type's |
| ContractClash.BarePredClash | bynk-check/src/contract.rs:222-238 | the same for an undeclared name `Positive` or `NonNegative` behind a refined type in a payload |
| ContractText.TextTells | bynk-check/src/contract.rs:101-313 | two spelled forms with one text are equal, order included |
| ContractText.TextRead | bynk-check/src/contract.rs:101-258 | a type is read back from its text in one way, whatever the enclosing text goes on with |
| ContractText.PredsRead | bynk-check/src/contract.rs:269-281 | so is a list of predicates, which ends where no further predicate can follow |
| ContractText.PredRead | bynk-check/src/contract.rs:283-313 | so is one predicate, with its numbers in decimal and its pattern quoted |
| ContractText.QuotedRead | bynk-check/src/contract.rs:285-285 | a quoted pattern ends at its own closing quote and gives the pattern back |
| ContractWalk.Expansion.CanonType | bynk-check/src/contract.rs:101-172 | the walk terminates on every table, generic and recursive ones included, builds the form and restores `seen` |
| ContractWalk.Expansion.CanonName | bynk-check/src/contract.rs:173-258 | a name on the path gives a back reference, any other name joins `seen` only while its body is expanded |
| ContractWalk.Expansion.CanonDeclaration | bynk-check/src/contract.rs:184-258 | the loops over fields and variants build the form of the body, `seen` restored |
| Fnv.Hash | bynk-check/src/contract.rs:336-352 | the byte loop computes the fold of rounds from the offset basis |
| Fnv.OneMoreByte | bynk-check/src/contract.rs:345-352 | one more byte flips the byte's bits in the hash so far and then multiplies by the prime, at every bit |
| Fnv.PublishedHashes | bynk-check/src/contract.rs:724-730 | the published hashes of the empty text, `a` and `foobar` |
| Fnv.TimesUndone | bynk-check/src/contract.rs:339-350 | wrapping multiplication by the prime is undone by its inverse modulo 2^64 |
| Fnv.XorBits | bynk-check/src/contract.rs:348-348 | exclusive or acts bit by bit, at every position |
| Fnv.RoundInjective | bynk-check/src/contract.rs:347-350 | a round loses nothing of the state for a given byte, nor of the byte for a given state |
| Fnv.RoundsInjective | bynk-check/src/contract.rs:345-352 | for any fixed rest of the input the hash is injective in the state |
| Fnv.OneByteTells | bynk-check/src/contract.rs:345-352 | inputs that differ in exactly one byte have different hashes |
| Fnv.HexInjective | bynk-check/src/contract.rs:351-351 | zero-padded hexadecimal of a fixed width is injective |
| Fnv.OneByteTellsHex | bynk-check/src/contract.rs:345-352 | and so are the rendered hashes different |
| IcuScanners.FindTopLevelComma | bynk-check/src/icu.rs:282-302 | the loop with index, depth and quote flag finds what the specification says |
| IcuScanners.FindIcuClose | bynk-check/src/icu.rs:310-334 | likewise for the closing brace |
| IcuScanners.ParseSubMessage | bynk-check/src/icu.rs:432-493 | the loop over an arm's body gives the specified segments and length, or the specified error at the shifted position |
| IcuScanners.ParseArmList | bynk-check/src/icu.rs:343-426 | the loop over the arms gives the specified arms or the first error |
| IcuScanners.ParseIcuPlaceholder | bynk-check/src/icu.rs:516-623 | the whole placeholder parser, on top of the loops |
| IcuLanguage.ParsesIffSpells | bynk-check/src/icu.rs:282-671 | the parser accepts exactly the texts that spell a placeholder, each as the one it spells, the language being defined without it |
| IcuLanguage.ParseArmsSpells | bynk-check/src/icu.rs:336-426 | arms are read exactly when blanks, new keys and bodies in braces follow one another to the end |
| IcuLanguage.SubMessageContinues | bynk-check/src/icu.rs:428-493 | a body is read as a message exactly when, its quoting resolved, it consists of the message's characters and counts |
| IcuScanners.Split | bynk-check/src/icu.rs:703-760 | the scan over a template gives the specified segments |
| IcuProperties.CommaFromExact | bynk-check/src/icu.rs:282-302 | the position found is the first unquoted comma where the unquoted braces before it balance, and none is found when there is none |
| IcuProperties.CloseFromExact | bynk-check/src/icu.rs:304-334 | the brace found is exactly the matching one: after it all unquoted braces are closed and after no shorter stretch |
| IcuProperties.SubMessageEndsAtClose | bynk-check/src/icu.rs:428-493 | two scanners agree: an arm's body ends at the brace the placeholder scanner takes for its match |
| IcuProperties.SplitLossless | bynk-check/src/icu.rs:703-760 | segments concatenate back to the template, each placeholder lies where its offset says, literals are non-empty and never adjacent |
| IcuProperties.SplitComplete | bynk-check/src/icu.rs:703-760 | every placeholder of the segments is one, and no brace in a literal opens one |
| IcuProperties.SlotAtExact | bynk-check/src/icu.rs:716-750 | after an opening brace, a text is taken for a placeholder exactly when it is one: up to the matching brace if a comma comes before any closing brace, else a name without braces |
| IcuProperties.SlotAtGood | bynk-check/src/icu.rs:716-750 | an inner text has a comma exactly when the ICU branch took it, and then it ends at its matching brace |
| IcuProperties.ErrorSpanWithin | bynk-check/src/icu.rs:516-671 | every error span lies within the inner text plus one |
| IcuErrors.ErrorJustified | bynk-check/src/icu.rs:343-671 | every rejection is justified: the rule its kind names is broken in the text under its span |
| IcuProperties.ParsedPlaceholderGood | bynk-check/src/icu.rs:343-623 | every accepted placeholder has distinct arm keys, an `other` arm, tidy literals and `#` in plural arms only |
| IcuRoundTrip.TemplateRoundTrip | bynk-check/src/icu.rs:282-760 | printing any well-formed template, arm texts arbitrary, and then splitting and parsing it gives the template back |
| IcuRoundTrip.MessageReads | bynk-check/src/icu.rs:432-493 | a printed arm body is read back, quoting opened once and closed at the end of the literal |
| IcuRoundTrip.MessageClose | bynk-check/src/icu.rs:310-334 | the brace scanner runs over a printed arm body without stopping |
| IcuRoundTrip.ArmsRead | bynk-check/src/icu.rs:343-426 | printed arms are read back in order |
| IcuRoundTrip.PlaceholderReads | bynk-check/src/icu.rs:516-671 | a printed plural, select, number or date placeholder is read back |
| IcuRoundTrip.PlaceholderClose | bynk-check/src/icu.rs:310-334 | the brace scanner stops right behind a printed placeholder, whatever follows |
| IcuRoundTrip.EmptyTemplateReads | bynk-check/src/icu.rs:756-759 | the empty template is one empty literal |
| TypeCore.UnifyExact | bynk-check/src/checker.rs:2669-2770 | on matching shapes `unify` succeeds if and only if some bindings above the given ones turn the pattern into the actual type; what it leaves is the least of them |
| TypePositions.UnifyDecides | bynk-check/src/checker.rs:2669-2770 | for all pairs of types: the call fails exactly when two met functions differ in the number of parameters or met positions and bindings ask different types of one variable; it binds exactly what met positions ask for, and nothing through a mismatch |
| TypeCore.UnifyInstance | bynk-check/src/checker.rs:2676-2770 | `unify` succeeds on every instance of the pattern, and what it leaves gives the instance back |
| TypeCore.UnifyComplete | bynk-check/src/checker.rs:2676-2770 | whenever any extension makes the types equal the call succeeds and stays below that extension |
| TypeCore.UnifySound | bynk-check/src/checker.rs:2676-2770 | after success the bindings, or any later ones above them, turn the pattern into the actual type |
| TypeCore.UnifyExtends | bynk-check/src/checker.rs:2676-2770 | no existing binding changes, also on a conflict, and only variables of the pattern are bound |
| TypeCore.CompatibleTransitive | bynk-check/src/checker.rs:3022-3137 | assignability is transitive on error-free types, through contravariant parameters and exact map keys |
| TypePositions.CompatibleIffFits | bynk-check/src/checker.rs:3022-3137 | assignability, position by position: both types are built alike down to a refined type on the given side, or on the expected side inside an odd number of parameters, against its base; map keys are equal |
| TypeCore.CompatibleAntisymmetric | bynk-check/src/checker.rs:3022-3137 | error-free types assignable both ways are equal |
| TypeCore.CompatibleReflexiveIff | bynk-check/src/checker.rs:3015-3137 | a type is assignable to itself exactly when no sealed actor binding occurs outside a map key |
| TypeCore.CompatibleSubstitute | bynk-check/src/checker.rs:2554-2598 | instantiating both sides keeps assignability when each substituted type is assignable to itself |
| TypeCore.SubstituteCompose | bynk-check/src/checker.rs:2554-2598 | substituting twice is substituting once by the composed map |
| TypeCore.SubstituteAgree | bynk-check/src/checker.rs:2554-2598 | only the bindings of variables that occur matter |
| TypeCore.ContainsVarIffVars | bynk-check/src/checker.rs:2601-2629 | the test finds a variable exactly when substitution could reach one |
| Resolution.InstantiateCommutes | bynk-check/src/checker.rs:2460-2494 | instantiating a field and substituting afterwards is instantiating it at the substituted arguments, absent results included |
| Resolution.InstantiateClosed | bynk-check/src/checker.rs:2472-2494 | every variable of an instantiated field comes from the arguments |
| Resolution.InstantiateParameter | bynk-check/src/checker.rs:2460-2494 | a field declared as a parameter has the argument given for it |
| Resolution.ResolveVars | bynk-check/src/checker.rs:2496-2549 | resolving leaves no variables but the parameters in scope |
| Resolution.ResolveWritten | bynk-check/src/checker.rs:2496-2549 | writing a type out and resolving it gives the type back |
| Resolution.ResolveWellFormed | bynk-check/src/checker.rs:2423-2440 | a resolved type carries no error, and the kinds recorded in it are those of the declarations |
| Interner.Canonical | bynk-check/src/checker.rs:125-145 | two ids of one table denote the same deep type if and only if they are equal |
| Interner.Stable | bynk-check/src/checker.rs:131-145 | a table that has grown gives every older id its old type |
| Interner.TypeTable.Intern | bynk-check/src/checker.rs:125-145 | a present node is found, a new one is appended; no duplicates, inner ids older than the node, old ids unchanged |
| Interner.TypeTable.InternTree | bynk-check/src/checker.rs:125-145 | interning a tree gives an id that stands for it, and adds nothing if some id already did |
| Interner.TypeTable.Substitute | bynk-check/src/checker.rs:2554-2598 | substitution on ids is substitution on the trees they stand for |
| Interner.Bindings.Unify | bynk-check/src/checker.rs:2676-2770 | in-place unification on ids answers and binds what unification on trees does |
| Interner.Bindings.BindVariable | bynk-check/src/checker.rs:2676-2697 | comparing a prior binding by id is comparing the types |
| Claims.WitnessesExact | bynk-check/src/actors.rs:758-792 | the claim sets found describe together exactly the objects that give the predicate the wanted value |
| Claims.ClaimWitnessExact | bynk-check/src/actors.rs:797-815 | there is no witness exactly when no object satisfies the predicate; a witness is let through exactly when it signs no `nbf` and one of the claim sets found is met by what the seam finds, stamped names and members included |
| Claims.NoWitnessExact | bynk-check/src/actors.rs:793-797 | where nothing is asked of stamped names nor of `nbf`, there is no witness exactly when nothing that can be signed is let through |
| Claims.AdmittedIffSignable | bynk-emit/runtime/src/auth.ts:57-67 | something that can be signed is let through exactly when one of the claim sets found asks of stamped names what is stamped, and no text of `nbf` |
| Claims.SingleWitnessExact | bynk-check/src/actors.rs:797-815 | a predicate without alternatives: its witness is let through exactly when it signs no `nbf`, each need on a stamped name is met by the stamp and each unsigned need by the member of that name |
| Claims.SignedClaimsMeet | bynk-emit/src/project/tests_emit.rs:1153-1182 | the signed claims meet a claim set exactly when each name is answered as the set asks, by the stamp, else by what is signed, else by the member |
| Claims.FirstSetMet | bynk-check/src/actors.rs:797-815 | the first claim set is met exactly when needs on stamped names are met by the stamp, and unsigned needs on members by the member |
| Claims.AnsweredUnsigned | bynk-check/src/actors.rs:797-815 | `!hasClaim` of a member every object has: the witness signs nothing and is refused, though signing a false value would do |
| Claims.StampOverrides | bynk-emit/src/project/tests_emit.rs:1153-1182 | `claimEquals` of a name that is stamped otherwise has a witness, and nothing that can be signed is let through |
| Claims.StartRefused | bynk-emit/runtime/src/auth.ts:62-67 | `hasClaim("nbf")`: the witness satisfies it and the token is refused, though a number in the past would do |
| Claims.MergeNeedExact | bynk-check/src/actors.rs:701-741 | merging two needs intersects their sets of claim values, and fails exactly when nothing is in both |
| Claims.MergeClaimsExact | bynk-check/src/actors.rs:743-754 | merging claim sets intersects what they describe, and fails exactly when no object is described by both |
| Claims.MergeClaimSets | bynk-check/src/actors.rs:743-754 | the loop updating a copy computes the merged set in any order of names, or fails |
| Claims.SignedMeets | bynk-check/src/actors.rs:797-815 | the value signed for a need, or its absence, meets the need |
| Narrowing.MatchedSound | bynk-check/src/narrowing.rs:1-55 | every test returned was evaluated under short-circuit rules and matched |
| Narrowing.MatchedExact | bynk-check/src/narrowing.rs:1-55 | for read-once expressions the tests returned are exactly those that match in every evaluation giving the value |
| Narrowing.MatchedInOrder | bynk-check/src/narrowing.rs:32-55 | the tests returned are in source order |
| Narrowing.Avoid | bynk-check/src/narrowing.rs:40-55 | constructs, for a test not returned, an evaluation with the wanted value in which it fails |
| Narrowing.Collector.Collect | bynk-check/src/narrowing.rs:40-55 | the recursion appends to the shared output in source order and touches nothing before |
| Narrowing.MatchedIsTests | bynk-check/src/narrowing.rs:34-38 | the entry point starts from an empty output |
| Rename.EqualsModuloRename | bynk-check/src/index.rs:391-427 | the loop over the symbols decides whether every symbol's sites arrived under its expected key |
| Rename.AcceptedIsBijection | bynk-check/src/index.rs:387-427 | an accepted rename is a bijection between the symbol tables if and only if the new name was free |
| Rename.AcceptedKeepsSites | bynk-check/src/index.rs:387-427 | after an accepted rename each definition and reference belongs to its own symbol, as often as before, and to no other |
| Rename.AcceptedOverDistinctDefs | bynk-check/src/index.rs:387-427 | over an index with distinct definition sites every accepted rename is a bijection |
| Rename.HonestAccepted | bynk-check/src/index.rs:391-427 | a rename that only renames is accepted if and only if the renamed symbol owns no members |
| Rename.BuiltDistinct | bynk-check/src/index.rs:552-563 | a built index has a definition site for every symbol, and distinct ones if the declarations stand at distinct places |
| Rename.IndexBuilder.Build | bynk-check/src/index.rs:552-686 | the loop over resolved references gives every definition its sites, each once and without its own |
| Rename.RefsToExact | bynk-check/src/index.rs:600-614 | a site is filed exactly when a reference to the symbol stands there and it is not the definition's own, each once |
| Rename.IndexBuilder.AddDef | bynk-check/src/index.rs:462-501 | a definition is filed under its key, a later one replacing an earlier |
| Rename.TakenNameRejected | bynk-check/src/index.rs:387-427 | over an index with distinct definition sites renaming onto a name that was already taken is never accepted |
| Rename.SharedDefinitionLosesSymbol | bynk-check/src/index.rs:391-427 | what distinct definition sites are for: over an index without them, which is never built, a rename onto a taken name can be accepted and lose a symbol |
| Assets.Closure | bynk-check/src/assets.rs:254-271 | the worklist returns exactly the units some path leads to |
| Assets.DeployedAssets | bynk-check/src/assets.rs:273-312 | the output holds exactly the served hashed assets of everything reachable over both edge maps and the fixed ones of what is reachable over `uses` alone, at each path the source of the last unit by name |
| Assets.FixedPaths | bynk-check/src/assets.rs:420-474 | the map never holds a folder of another path, each report has an earlier conflicting declaration, each unreported declaration is served |
| Assets.FolderOfComponents | bynk-check/src/assets.rs:433-438 | a path is a folder of another exactly when its components come first in the other's |
| Assets.ReportsConflict | bynk-check/src/assets.rs:420-474 | a conflict is reported if and only if two declarations of the context conflict |
| Assets.ConflictOrderFree | bynk-check/src/assets.rs:420-474 | whether one is reported does not depend on the visiting order |

## Left out

- BoundaryExact.CompatIffSimilar: asks that declarations the comparison can meet use their type parameters in parallel and that references have as many arguments as parameters; generic declarations that do not stay one-way (see `BoundaryLimits.GenericRevisitTrusted`).
- BoundaryValues.CompatValues: asks that shared declarations it can meet are coherent and, for the full conclusion, covered inline refinements (see `BoundaryLimits`).
- BoundaryInline.InlineExactly: asks that inline refinements stand on fields of base or refined types, as the checker does; a base type has arbitrarily many values.
- ContractReach.CanonIffSameGraph: asks that nothing reached has type parameters; `ContractReach.CanonIffSameShape` is the result for generic declarations.
- ContractReach.CanonIffSameShape: asks that no generic declaration that is reached reaches itself, which a boundary demands too, that applications have the declared number of arguments, and that parameter names do not clash with declared ones, which the resolver reports.
- ContractInvariance.SameGraphSameForm: asks the same of applications and parameter names.
- ContractHash.TextIffForm: asks that names are identifiers other than built-in ones and that names without a declaration avoid the clashes above; the text of a float is a parameter that must tell floats apart, and characters a debug print would show as a code point print as they are.
- TypePositions.UnifyDecides: which of the bindings asked for a failing call has already made.
- ContractExamples.PublishedForms: of the example service `quote` only two of the types it names.
- IcuErrors.ErrorJustified: which of several broken rules is reported, beyond the order of the checks on a plural key.
- Rename.HonestAccepted: members are told by their key, `Owner.member` in the owner's unit and of a kind the owner's kind owns.
- Rename.IndexBuilder.Build: qualifying and attributing references, call, implementation and refinement edges.
- Assets.DeployedAssets: which of one unit's assets wins at one path, because the code reads them in the order of a hash map.
- Tags, locks and reference counts of the interner: one table is modelled.
- Byte offsets of UTF-8 text: positions in templates count characters.
- Slicing a select key out of the inner text again: keys are returned as text.
- Regular expressions and floating point: `Matches` and float bounds are compared, not evaluated; float bounds are reals.
- Expression typing, diagnostics and their spans, notes about rebrands and ambiguous names.
- Reading a claim predicate from an expression, JSON escaping and the text of the emitted JavaScript.
- Boolean operators other than `&&`, `||`, `!` and `implies` are opaque to narrowing, as in the code.
- Sorting site lists: they are compared as multisets.
- Normalising asset paths, the checks on single paths, route shadowing, and the removal of repeated reports across contexts.
- The placeholder-name and format-kind tables built from split templates, and the actor seam lookups: easy members only.
