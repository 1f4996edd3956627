# volta-gateway: a verified model

volta-gateway is an auth-aware reverse proxy (`gateway`) with a bundled identity service
(`auth-server`). This project models the parts of both that carry state or recursion and proves
what they promise, for every input and every run.

* **Exclusive XML canonicalisation** of SAML messages (`saml_dsig.rs`). `C14nSpec` says what the
  canonical form is: events are resolved against namespace scopes, then written out with the
  declarations that the bindings rendered by ancestors still lack. `Canonicalizer` is the one-pass
  algorithm with its two stacks of association lists, proved to compute it. `C14nTheorems`,
  `C14nVariants` and `C14nDocuments` prove that prefixed names keep their meaning, that nothing
  superfluous is declared, that canonicalisation is idempotent (on events, and on characters by
  way of the reference reader of `C14nReader`), and that two documents have equal output exactly
  when the code resolves them to equal items. `C14nInfoset` and `C14nAttributeOrder` compare this
  with what a namespace-aware reader sees, and say exactly where the two part. `C14nFragments`
  treats elements cut out of their document, which is what signature verification canonicalises.
* **Element spans and signature removal** (`saml_dsig.rs`): `Spans`.
* **The cross-instance event bus** (`auth_events.rs`): `EventBus`, the bus object and a network of
  any number of processes.
* **Configuration overlay** (`config_overlay.rs`): `JsonMerge` (RFC 7386) and `ConfigStores`, the
  transactional store with failing writes, crashes and restarts.
* **Hot routing** (`config_source.rs`, `config_overlay.rs`): `HotRouting`.
* **The response cache** (`cache.rs`): `ResponseCaches`.
* **Two rate limiters** (`rate_limit.rs`, `plugin.rs`): `Limiters`.
* **The path guard** (`flow.rs`): `PercentDecoding`.
* **Codecs and matchers** (`totp.rs`, `config.rs`, `helpers.rs`): `Base32`, `AuthRules`,
  `SignedState`.

`C14nText` spells out what the output text looks like. `Basics`, `Ordering` and `XmlModel` hold
shared definitions. Times, outcomes of file writes and
Redis publishes, the contents and readability of files and the parsed XML events are inputs of the
model. Strings are compared by code point, which is the order of their UTF-8 bytes.

## What does not hold as one might expect

* A prefix re-bound to the empty URI below an element that rendered it resolves to the outer URI
  in the output (`MaskedExample`). `MeaningPreserved` gives the exact condition; documents that obey
  Namespaces in XML 1.0 meet it (`WellFormedUnmasked`).
* The comment at `saml_dsig.rs:328` speaks of a default declaration to be sorted first, but the
  default namespace is never emitted. Full element namespaces survive exactly when no unprefixed
  element lies in a default namespace (`DefaultNamespaceExact`, `DefaultNamespaceLost`). So one
  output stands for documents in different namespaces (`DefaultCollision`); a document is safe from
  this exactly when all its elements are prefixed (`FixedExactly`).
* The prefix `xml` is resolved only where it is declared. `xml:id` therefore sorts among the
  unqualified attributes, where section 3 of RFC 3741 has it sorted by its namespace; beside an
  attribute `id` it ties, and their order in the document shows in the output (`TieWitness`, exactly
  when in `AttributeOrderExact`). Declaring `xml`, which means nothing, shows too (`XmlWitness`).
* The recursion of `urlencoding_decode` does not end on inputs such as `%80%`: bytes from 0x80 on
  are pushed as characters and double at every call. `TerminatesExactly` characterises all such
  inputs. Because the call does not return on them, `UrlencodingDecode` and `AcceptsPath` ask for the
  rest.
* A result of `urlencoding_decode` is a fixpoint of decoding exactly when it is ASCII
  (`ResultFixpoint`, `WideningExample`); the guard against `..` is nevertheless exact at every
  level (`GuardExact`).
* A sliding interval one window long admits at most 2·limit − 1 requests, and this is reached
  (`RunBound`, `SlidingBoundTight`). A limit of zero means "unlimited" for `RateLimiter` and
  "refuse" for `RateLimitByUser`; the two agree exactly otherwise, or when the window is empty
  (`LimitersAgree`).
* A watcher push puts the static routes of the start-up back, whatever was reloaded since
  (`PushUndoesReload`, exactly when in `StaticAfterPush`), and a rebuild that was overtaken by a
  push can hide the pushed routes (`OvertakenRebuild`, exactly when in `RebuildIsCurrent`).
* Accumulating a patch in the overlay differs from patching the effective configuration where the
  patch deletes members, or has an object over an overlay scalar; `ComposesExactly` gives the exact
  condition.
* An event that already carries another process's stamp goes out twice on its own bus, where its
  echo is not recognised, and never on the bus of the stamp's owner (`ForeignStampMisrouted`).
  Exactly the events with their publisher's stamp go out once everywhere (`OnceEverywhereExactly`).
* Handlers queue an event for the bridge and then send it locally, side by side. Local order and
  queue order can differ (`SecondSendsFirst`, exactly when in `OwnOrderExactly`); counts do not.
* `config_overlay.rs:53` says that a missing or empty overlay file counts as `{}`; so does one that
  cannot be read. Such a start runs without the overlay that the file still holds, and the next
  patch overwrites it (`UnreadableForgets`); `InStepExactly` says precisely when memory and disk
  agree.
* Canonicalising an element cut out of its document loses the declarations around it
  (`CutLosesPrefix`); `FragmentExact`, `LocatedExact` and, for what verification digests,
  `DigestInputExact` give the exact condition.
* A colon in the flow id or the invite moves field boundaries in the signed state; `RoundTripExact`
  shows that nothing else does.

## Model

| member | source | states |
|---|---|---|
| Canonicalizer.Canonicalize | auth-server/src/saml_dsig.rs:226-535 | for every event stream and mode, the canonical form of the specification, or the input itself in mode None; in every tag the declarations are ordered by prefix and the attributes by namespace URI, then local name, each by first difference |
| Canonicalizer.WriteEvents | auth-server/src/saml_dsig.rs:245-534 | the loop over two stacks yields the canonical form of the specification |
| C14nTheorems.EmitInOrder | auth-server/src/saml_dsig.rs:328-338 | declarations and attributes of every tag come in that order, whatever the document |
| Ordering.StrLeIs | auth-server/src/saml_dsig.rs:336-338 | the string order is by first difference: behind a common prefix, the first string ends or has the smaller character |
| C14nText.SampleText | auth-server/src/saml_dsig.rs:226-535 | the whole output text, character by character, for a document with all kinds of events, two attributes and a declaration, with any names and values |
| C14nText.TextEscapes | auth-server/src/saml_dsig.rs:574-586 | in text exactly `&`, `<`, `>` and CR are replaced, by these references |
| C14nText.AttrEscapes | auth-server/src/saml_dsig.rs:591-605 | in attribute values exactly `&`, `<`, `"`, TAB, LF and CR are |
| C14nText.DeclarationIs | auth-server/src/saml_dsig.rs:251-260 | a declaration is `xmlns` or `xmlns:` with a prefix behind it |
| Canonicalizer.Step | auth-server/src/saml_dsig.rs:246-533 | one turn of the loop appends the text of that event and moves both stacks as the specification does |
| Canonicalizer.StepStart | auth-server/src/saml_dsig.rs:248-373 | a start-tag's text and the pushed scope and rendered set |
| Canonicalizer.StepEmpty | auth-server/src/saml_dsig.rs:387-501 | an empty element is written as open and close tag and leaves the rendered bindings as they were |
| Canonicalizer.StepContent | auth-server/src/saml_dsig.rs:502-530 | text, CDATA, comments by mode, instructions; declarations and doctypes vanish |
| Canonicalizer.StartTag | auth-server/src/saml_dsig.rs:249-372 | the open tag carries exactly the missing declarations in prefix order and the attributes in (URI, local name) order; children see the parent's rendered bindings overridden by the new ones |
| Canonicalizer.ScopeOf | auth-server/src/saml_dsig.rs:251-272 | the association list of an element's scope denotes the parent's bindings overridden by its declarations, one entry a prefix |
| Canonicalizer.CollectAttrs | auth-server/src/saml_dsig.rs:274-288 | the non-namespace attributes in order, resolved in the element's own scope, unprefixed ones in no namespace |
| Canonicalizer.UtilisedPrefixes | auth-server/src/saml_dsig.rs:290-299 | lists without repetition exactly the non-empty prefixes of the element and its attributes |
| Canonicalizer.Declarations | auth-server/src/saml_dsig.rs:301-326 | lists exactly the bound utilised prefixes not rendered above with the same URI, and adds them to the rendered set |
| Canonicalizer.SortDecls | auth-server/src/saml_dsig.rs:328-333 | the declarations come out as the one listing in prefix order |
| Canonicalizer.SetBinding | auth-server/src/saml_dsig.rs:265-271 | overwrites or appends an entry so that the list stays free of duplicates and denotes the updated map |
| Canonicalizer.Contains | auth-server/src/saml_dsig.rs:313-315 | finds a pair exactly when the list binds that prefix to that URI |
| Canonicalizer.ResolveNs | auth-server/src/saml_dsig.rs:552-560 | the search from the end is a lookup in the map the list denotes, empty when unbound |
| Canonicalizer.EscapeText | auth-server/src/saml_dsig.rs:574-586 | the loop escapes each character of text |
| Canonicalizer.EscapeAttr | auth-server/src/saml_dsig.rs:591-605 | the loop escapes each character of an attribute value |
| Canonicalizer.WriteDecls | auth-server/src/saml_dsig.rs:348-358 | declarations are written in list order, values escaped |
| Canonicalizer.WriteAttrs | auth-server/src/saml_dsig.rs:360-370 | attributes are written in list order, names re-joined, values escaped |
| XmlModel.SplitQName | auth-server/src/saml_dsig.rs:540-548 | the local name has no colon and prefix and local name make up the name |
| XmlModel.SplitJoin | auth-server/src/saml_dsig.rs:540-548 | writing a name and splitting it again is the identity |
| C14nSpec.InOrderUnique | auth-server/src/saml_dsig.rs:328-333 | a map of bindings has one listing sorted by prefix |
| C14nTheorems.MeaningPreserved | auth-server/src/saml_dsig.rs:237-326 | resolving the output with nothing but the declarations in it gives the items of the input, attributes sorted, exactly when no used prefix is masked |
| C14nTheorems.OpenReadBack | auth-server/src/saml_dsig.rs:301-326 | one element's names resolve in the output to their input URIs exactly when no unbound prefix of it is still rendered |
| C14nTheorems.ReadScope | auth-server/src/saml_dsig.rs:301-326 | the scope a reader of the output computes is the rendered set |
| C14nTheorems.WellFormedUnmasked | auth-server/src/saml_dsig.rs:237-326 | where no prefix is bound to the empty URI, the two stacks stay in step and nothing is masked |
| C14nTheorems.CanonicalMeaning | auth-server/src/saml_dsig.rs:226-535 | every document free of empty-URI prefix bindings keeps the URI of every prefixed element and attribute name |
| C14nTheorems.MaskedExample | auth-server/src/saml_dsig.rs:309-311 | a prefix re-bound to the empty URI changes its meaning |
| C14nTheorems.EmitMinimal | auth-server/src/saml_dsig.rs:302-326 | no emitted declaration is unused by its element, empty, or repeats what a reader already has in scope |
| C14nTheorems.EmitSorted | auth-server/src/saml_dsig.rs:335-338 | attribute order before sorting does not influence the output |
| C14nTheorems.Idempotent | auth-server/src/saml_dsig.rs:226-535 | canonicalising the event stream of the output gives the output |
| C14nTheorems.OutputDefaultFree | auth-server/src/saml_dsig.rs:292-299 | no element of any output lies in a default namespace |
| C14nTheorems.DefaultNamespaceExact | auth-server/src/saml_dsig.rs:290-326 | full element namespaces survive exactly when no unprefixed element lies in a default namespace |
| C14nTheorems.DefaultNamespaceLost | auth-server/src/saml_dsig.rs:292-299 | `<a xmlns="u"/>` comes out without its namespace |
| C14nVariants.JoinTextSerialised | auth-server/src/saml_dsig.rs:502-510 | splitting text into several events changes no character of the output |
| C14nVariants.CanonicalOfResolved | auth-server/src/saml_dsig.rs:226-535 | the output is a function of the resolved items: names as the code resolves them, attributes in canonical order, maximal text |
| C14nVariants.EmptyElementForm | auth-server/src/saml_dsig.rs:387-501 | an empty-element tag and a start-end pair canonicalise identically in any context |
| C14nVariants.CDataForm | auth-server/src/saml_dsig.rs:502-510 | CDATA and text canonicalise identically in any context |
| C14nVariants.InvisibleForm | auth-server/src/saml_dsig.rs:511-530 | XML declarations, doctypes and (in mode Exclusive) comments can be inserted anywhere without effect |
| C14nVariants.AttributeOrderForm | auth-server/src/saml_dsig.rs:251-338 | permuting attributes and declarations of an element changes nothing if no two different attributes share local name and resolved URI |
| C14nAttributeOrder.AttributeOrderExact | auth-server/src/saml_dsig.rs:281-338 | in any parsed document, all orders of the attributes of an element canonicalise alike exactly when no two different ones share local name and resolved URI |
| C14nAttributeOrder.SwapDiffers | auth-server/src/saml_dsig.rs:335-338 | exchanging two that do changes the bytes |
| Ordering.SortStable | auth-server/src/saml_dsig.rs:335-338 | the sort keeps elements that compare equal in their order |
| C14nReader.UnescapeText | auth-server/src/saml_dsig.rs:574-586 | unescaping inverts text escaping for every string; no markup remains |
| C14nReader.UnescapeAttr | auth-server/src/saml_dsig.rs:591-605 | unescaping inverts attribute escaping for every string; no quote remains |
| C14nReader.ReadSerialised | auth-server/src/saml_dsig.rs:340-372 | reading serialised tokens gives back their events |
| C14nDocuments.BytesCarryResolved | auth-server/src/saml_dsig.rs:226-605 | reading the output text alone gives back the resolved items of the input |
| C14nDocuments.SameBytesIffSameItems | auth-server/src/saml_dsig.rs:226-605 | two documents have the same output exactly when they resolve to the same items |
| C14nInfoset.InfosetOfItems | auth-server/src/saml_dsig.rs:248-288 | where no unprefixed element lies in a default namespace, the resolved items tell the infoset (element namespaces with the default one, attributes without order, `xml` bound) |
| C14nInfoset.SameBytesSameInfoset | auth-server/src/saml_dsig.rs:226-605 | there, the same output means the same infoset |
| C14nInfoset.SameBytesIffSameInfoset | auth-server/src/saml_dsig.rs:226-605 | two documents have the same output exactly when they have the same infoset, if no unprefixed element lies in a default namespace, no attributes tie and `xml` is not declared |
| C14nInfoset.FixedExactly | auth-server/src/saml_dsig.rs:290-326 | among all parsed documents with the same output, the output of a document fixes its infoset, and its element namespaces, exactly when every element of it is prefixed |
| C14nInfoset.DefaultUnseen | auth-server/src/saml_dsig.rs:290-326 | declaring any default namespace throughout a document leaves the output as it is |
| C14nAttributeOrder.Collision | auth-server/src/saml_dsig.rs:290-326 | any document with an unprefixed element gives two with the same output and different infosets |
| C14nAttributeOrder.DefaultCollision | auth-server/src/saml_dsig.rs:290-326 | `<a xmlns="u"/>` and `<a xmlns="v"/>` are such a pair |
| C14nAttributeOrder.TieWitness | auth-server/src/saml_dsig.rs:281-285 | `id` and `xml:id` on one element, in either order: one infoset, two outputs |
| C14nAttributeOrder.XmlWitness | auth-server/src/saml_dsig.rs:305-323 | declaring the prefix `xml` where it is used: one infoset, two outputs |
| C14nDocuments.BytesIdempotent | auth-server/src/saml_dsig.rs:226-605 | canonicalising the text of the output returns it |
| C14nFragments.ResolveForest | auth-server/src/saml_dsig.rs:246-533 | a well-nested stretch resolves by the scope it stands in alone and leaves the stack as it was |
| C14nFragments.ForestSame | auth-server/src/saml_dsig.rs:552-560 | it resolves alike with and without the outer scope exactly when every prefix it visibly uses that the outer scope binds is bound inside |
| C14nFragments.FragmentExact | auth-server/src/saml_dsig.rs:146-170 | canonicalising any well-nested fragment on its own gives its exclusive canonical form in the document exactly when it is self-contained in that sense |
| C14nFragments.LocatedExact | auth-server/src/saml_dsig.rs:137-170 | the same for the bytes of the element that a search by name or ID finds in a document |
| C14nFragments.DigestInputExact | auth-server/src/saml_dsig.rs:137-170 | the same for what verification digests: the element found, without its first Signature |
| C14nFragments.CutLosesPrefix | auth-server/src/saml_dsig.rs:146-170 | an element that uses a prefix of its parent canonicalises differently once cut out |
| Spans.LocateElement | auth-server/src/saml_dsig.rs:617-662 | on every well-nested document, the byte span of exactly one element, the first whose name splits into this local name; none only when no opening tag has it; elsewhere what the counting scan finds |
| Spans.LocateElementById | auth-server/src/saml_dsig.rs:665-723 | on every well-nested document, the byte span of exactly one element, the first with this value of the attribute ID; none only when no opening tag has it; elsewhere what the counting scan finds |
| Spans.FindTagOpenFrom | auth-server/src/saml_dsig.rs:739-748 | the tag at the position itself, otherwise the nearest '<' before it, or the start of the input |
| Spans.LocalNameIsLocal | auth-server/src/saml_dsig.rs:725-730 | what stands behind the last colon is what `split_qname` calls the local name |
| Spans.OpensIs | auth-server/src/saml_dsig.rs:716-730 | a tag answers exactly if `split_qname` gives it the local name looked for, or it has the ID |
| Spans.FirstAnswers | auth-server/src/saml_dsig.rs:617-714 | the search in a document yields one whole element that answers, with none before it, or none if there is none |
| Spans.CounterBalances | auth-server/src/saml_dsig.rs:624-655 | any well-nested content, same-name nesting included, leaves the depth as it was |
| Spans.SearchFinds | auth-server/src/saml_dsig.rs:617-662 | scanning through well-nested content, in any continuation, stops at the first matching element or goes on behind it |
| Spans.ScanCorrect | auth-server/src/saml_dsig.rs:617-714 | on every well-nested stream the scan returns the first matching element with its own end-tag, by name or by ID |
| Spans.FirstIsFirst | auth-server/src/saml_dsig.rs:617-714 | the element returned matches and nothing before it does; none is returned only when nothing matches |
| Spans.FoundIsPart | auth-server/src/saml_dsig.rs:617-714 | the span covers exactly the element found, which is well-nested |
| Spans.RemoveCuts | auth-server/src/saml_dsig.rs:750-761 | prefix plus suffix around the span is the document without that element, and well-nested |
| Spans.StripSignatureSubtree | auth-server/src/saml_dsig.rs:750-761 | the bytes without the span that the scan finds; on every well-nested document, the bytes before and behind the first element whose local name is Signature, or all bytes if there is none |
| EventBus.AuthEventBus.constructor | auth-server/src/auth_events.rs:95-102 | a bus starts with nothing sent and nothing queued |
| EventBus.AuthEventBus.PublishLocal | auth-server/src/auth_events.rs:121-123 | the event is sent on the local bus as it is; the queue is untouched |
| EventBus.AuthEventBus.Publish | auth-server/src/auth_events.rs:127-135 | an unstamped event is stamped; it is sent locally once and queued once when a bridge is attached |
| EventBus.AuthEventBus.RunSubscriber | auth-server/src/auth_events.rs:298-313 | everything but junk and own echoes is sent locally, in order; nothing is queued again |
| EventBus.AuthEventBus.RunPublisher | auth-server/src/auth_events.rs:319-327 | the queue is drained in order; failed publishes are dropped |
| EventBus.PublishMatchesBus | auth-server/src/auth_events.rs:127-135 | the two halves of a publish, one after the other, do to a process what publishing does to its bus, and nothing to others |
| EventBus.ForwardsMatchPublisher | auth-server/src/auth_events.rs:319-327 | n forward steps take from the queue, and put into every inbox, what the publisher task takes and puts on the wire |
| EventBus.DeliveriesMatchSubscriber | auth-server/src/auth_events.rs:298-313 | n delivery steps do to a process what the subscriber task does to the bus |
| EventBus.EnqueueKeeps | auth-server/src/auth_events.rs:131-133 | queueing an event, with any stamp, keeps conservation between all pairs of processes |
| EventBus.SendKeeps | auth-server/src/auth_events.rs:134 | so does sending it locally, whatever other handlers have done in between |
| EventBus.ForwardKeeps | auth-server/src/auth_events.rs:319-327 | a bridge publish reaching any set of inboxes keeps conservation (all of them for the lossless form) |
| EventBus.DeliverKeeps | auth-server/src/auth_events.rs:298-313 | local republication keeps conservation, own echoes included |
| EventBus.StepKeeps | auth-server/src/auth_events.rs:280-330 | every step keeps conservation and the set of processes |
| EventBus.Conservation | auth-server/src/auth_events.rs:121-330 | over every run, with any stamps and any losses: a bus carries what was published on it and what was relayed to it; what the bridge brings from p to q (also q = p) is an in-order, duplicate-free part of the events of p not stamped with q, and with a lossless bridge relayed ++ inbox ++ queue is all of them |
| EventBus.CopiesExactly | auth-server/src/auth_events.rs:121-330 | over every run an event goes out on a bus at most once locally plus once unless it carries that bus's stamp; exactly so once its handler is done and a lossless queue and inbox are drained |
| EventBus.OnceEverywhereExactly | auth-server/src/auth_events.rs:127-135 | in a quiet lossless network an event has gone out exactly once on every bus if and only if it carries its publisher's stamp; otherwise twice on its own bus and never on the bus of the stamp's owner |
| EventBus.OwnStampConservation | auth-server/src/auth_events.rs:280-330 | with events published unstamped, for p ≠ q: sent at q ++ inbox of q ++ queue of p equals what p queued (an in-order, duplicate-free part when publishes fail); on its own bus p has sent each event once whose handler is done |
| EventBus.OwnOrderExactly | auth-server/src/auth_events.rs:127-135 | with handlers side by side, the own bus shows the events in the order of the queue exactly when no handler sends before an older publish is done |
| EventBus.SecondSendsFirst | auth-server/src/auth_events.rs:131-134 | two publishes side by side are queued in one order and sent locally in the other |
| EventBus.RunKnown | auth-server/src/auth_events.rs:121-330 | with any stamps, nothing is relayed or under way that its author did not publish |
| EventBus.ForeignStampMisrouted | auth-server/src/auth_events.rs:303-308 | for any p ≠ q, an event published at p with the stamp of q goes out twice at p and never at q |
| JsonMerge.DeepMerge | gateway/src/config_overlay.rs:182-199 | merging member by member in any key order computes MergePatch of section 2 of RFC 7386: a patch that is no object replaces; otherwise members not mentioned stay, null members go, others are merged |
| JsonMerge.Examples | gateway/src/config_overlay.rs:182-199 | examples of appendix A of RFC 7386 |
| JsonMerge.MergeIdempotent | gateway/src/config_overlay.rs:182-199 | applying a patch twice is applying it once |
| JsonMerge.CompatibleComposes | gateway/src/config_overlay.rs:108-123 | merge(base, merge(overlay, patch)) = merge(merge(base, overlay), patch) when overlay and patch are compatible |
| JsonMerge.IncompatibleDiffers | gateway/src/config_overlay.rs:108-123 | otherwise some base tells the two apart |
| JsonMerge.ComposesExactly | gateway/src/config_overlay.rs:108-123 | the law holds for every base exactly when overlay and patch are compatible |
| JsonMerge.NullReverts | gateway/src/config_overlay.rs:174-199 | a patch {k: null} gives k back to the base and changes no other member |
| ConfigStores.Load | gateway/src/config_overlay.rs:54-72 | the store holds what the files hold, or the empty overlay if the overlay file is missing, blank or cannot be read; text that is not JSON and a configuration that cannot be made are errors; the gateway runs exactly when the result is valid too |
| ConfigStores.ConfigStore.constructor | gateway/src/config_overlay.rs:65-70 | a store holds the base and overlay given |
| ConfigStores.ConfigStore.EffectiveConfig | gateway/src/config_overlay.rs:75-78 | the typed reading of base and overlay merged |
| ConfigStores.ConfigStore.Check | gateway/src/config_overlay.rs:95-101 | the configuration that base and overlay merged make, or the reasons why they make none, or what validation finds wrong |
| ConfigStores.ConfigStore.Persist | gateway/src/config_overlay.rs:148-163 | the overlay file changes only when every step of write, sync and rename succeeds |
| ConfigStores.ConfigStore.ValidatePatch | gateway/src/config_overlay.rs:90-103 | the verdict of applying the patch, with no change of state |
| ConfigStores.ConfigStore.ApplyPatch | gateway/src/config_overlay.rs:108-123 | a valid patch that can be written is in memory and on disk afterwards, and its configuration returned; otherwise an error, and overlay and file as before; the base as before in any case |
| ConfigStores.ConfigStore.ClearOverlay | gateway/src/config_overlay.rs:126-134 | the same for the empty overlay |
| ConfigStores.ConfigStore.Reload | gateway/src/config_overlay.rs:138-145 | a base that reads and is valid under the overlay is in force afterwards, and its configuration returned; otherwise an error and the old base; overlay and files untouched |
| ConfigStores.OperationsTakeEffect | gateway/src/config_overlay.rs:90-145 | on a running gateway: a valid patch or clear that can be written is in force and on disk, a valid edit of the base is in force after a reload, a dry run does nothing |
| ConfigStores.StepKeeps | gateway/src/config_overlay.rs:54-163 | every operation, crash and start keeps the configuration in force valid |
| ConfigStores.AlwaysValid | gateway/src/config_overlay.rs:54-163 | over every run with any failures, the effective configuration of a running gateway is valid |
| ConfigStores.InStepExactly | gateway/src/config_overlay.rs:59-63 | over every run, memory overlay = disk overlay exactly when the overlay file could be read at the last start, or stood for the empty overlay, or an update has succeeded since |
| ConfigStores.ReadableStaysInStep | gateway/src/config_overlay.rs:54-163 | if every start can read the overlay file, memory overlay = disk overlay throughout, whatever else fails |
| ConfigStores.UnreadableForgets | gateway/src/config_overlay.rs:59-63 | a start that cannot read the file runs without the overlay it holds, and the next patch overwrites it |
| ConfigStores.RestartReproduces | gateway/src/main.rs:214-238 | with the base file as last read, a restart reproduces the state exactly when a readable overlay file is in step, or an unreadable one hides no overlay |
| ConfigStores.CrashIsAtomic | gateway/src/config_overlay.rs:108-163 | dying anywhere in a patch or a clear leaves the old or the new overlay on disk; a restart that reads it comes up with it, one that cannot comes up without, if the base alone is valid |
| HotRouting.InsertAll | gateway/src/config_overlay.rs:266-295 | inserting one table into another in any order is the override of maps |
| HotRouting.Gateway.constructor | gateway/src/config_source.rs:760-796 | the start-up table is in force and the snapshot is empty |
| HotRouting.Gateway.Push | gateway/src/config_source.rs:797-851 | for every route that is the last of its host, snapshot and table in force map the host in lower case to it; other hosts keep their place in the snapshot; the table is the start-up table under the snapshot |
| HotRouting.TableTakes | gateway/src/config_source.rs:799-823 | a batch puts the last route of every host, in lower case, over what was there |
| HotRouting.Gateway.Rebuild | gateway/src/config_overlay.rs:257-295 | the table in force is the new static table under the unchanged snapshot |
| HotRouting.RoutingInvariant | gateway/src/config_source.rs:797-851 | over every serialised run: table = static part under the snapshot; the snapshot holds exactly the hosts ever pushed, each with its latest route |
| HotRouting.StaticAfterPush | gateway/src/config_source.rs:768-851 | after a push the latest configuration is in force exactly when it agrees with the start-up table on all hosts outside the snapshot |
| HotRouting.PushUndoesReload | gateway/src/config_source.rs:768-851 | an empty push after a reload that changed a route puts the old route back |
| HotRouting.SmallStepKeeps | gateway/src/config_source.rs:826-851 | every interleaved load or store keeps the invariant and no host leaves the snapshot |
| HotRouting.SnapshotLosesNothing | gateway/src/config_source.rs:826-851 | with one source, over all interleavings with rebuilds, the snapshot is the union of all batches, the last one possibly about to be stored |
| HotRouting.InForceIsSound | gateway/src/config_source.rs:826-851 | the table in force is the static table of the start-up or of a rebuild of the run, under the snapshot of some past moment; so is every table about to be stored |
| HotRouting.RebuildIsCurrent | gateway/src/config_overlay.rs:257-264 | whatever is interleaved between begin and end of a rebuild, it serves the current snapshot exactly when the batches stored in between bring no host a route that was not already served |
| HotRouting.OvertakenRebuild | gateway/src/config_overlay.rs:257-264 | a rebuild that loaded before a push and stores after it hides the pushed host |
| ResponseCaches.ResponseCache.constructor | gateway/src/cache.rs:87-92 | a cache starts empty |
| ResponseCaches.ResponseCache.Get | gateway/src/cache.rs:110-126 | with a clock reading of its own for transition, check and use: a fresh entry is returned and marked used, its creation time kept; a stale one is removed |
| ResponseCaches.ResponseCache.RemoveStale | gateway/src/cache.rs:144-158 | exactly the fresh entries remain, unchanged, each judged by its own clock reading |
| ResponseCaches.ResponseCache.LeastRecentlyUsed | gateway/src/cache.rs:160-169 | a key with the smallest time of last use |
| ResponseCaches.ResponseCache.Put | gateway/src/cache.rs:129-185 | room is made only for a new key in a full cache, stale entries first, then one least recently used; the new entry is stored |
| ResponseCaches.RoomEvicts | gateway/src/cache.rs:142-170 | making room leaves a slot and costs a fresh entry only when all are fresh, then just one |
| ResponseCaches.PutEvicts | gateway/src/cache.rs:129-185 | size stays within capacity; a fresh entry goes only when no stale one is held, at most one a put |
| ResponseCaches.RunAgrees | gateway/src/cache.rs:110-185 | over every run every held entry is the image of the latest put of its key |
| ResponseCaches.HitIsLastPut | gateway/src/cache.rs:67-126 | over every run a hit is the latest put of that key at an age below that put's TTL |
| ResponseCaches.HeldThroughout | gateway/src/cache.rs:110-185 | a used key stays held while fewer than the capacity of other keys are touched |
| ResponseCaches.LruSurvival | gateway/src/cache.rs:110-185 | with a strictly increasing clock an unexpired key still hits if fewer than max_entries other keys were put or hit since its last use |
| Limiters.RateLimiter.constructor | auth-server/src/rate_limit.rs:35-45 | a limiter starts without buckets |
| Limiters.RateLimiter.Check | auth-server/src/rate_limit.rs:110-128 | decision and new bucket of that key; other keys untouched |
| Limiters.RateLimiter.Gc | auth-server/src/rate_limit.rs:133-138 | exactly the buckets younger than two windows remain |
| Limiters.RateLimitByUser.constructor | gateway/src/plugin.rs:116-132 | a limiter starts without users |
| Limiters.RateLimitByUser.OnRequest | gateway/src/plugin.rs:140-168 | decision and new usage of that user, with a clock reading of its own to open, test and restart the window; a request without user passes and leaves no trace |
| Limiters.SameDecisions | gateway/src/plugin.rs:140-168 | from states related by c1 = min(c2, limit) the two limiters decide alike on every trace |
| Limiters.LimitersAgree | auth-server/src/rate_limit.rs:110-128 | they agree on all traces exactly when the limit is positive or the window is empty |
| Limiters.AdmittedBound | auth-server/src/rate_limit.rs:110-128 | from any reachable bucket, what an interval one window long can still admit |
| Limiters.SlidingBound | auth-server/src/rate_limit.rs:110-128 | at most 2·limit − 1 admissions of a key in any half-open interval one window long |
| Limiters.SlidingBoundTight | auth-server/src/rate_limit.rs:110-128 | that bound is reached for every limit and every window of at least two ticks |
| Limiters.FirstInWindow | auth-server/src/rate_limit.rs:110-128 | within a bucket's window exactly the first `limit` requests are admitted |
| Limiters.RunProjects | auth-server/src/rate_limit.rs:110-138 | the decisions for a key in any run project to those of its own requests, from equivalent buckets |
| Limiters.KeysAndGcDoNotMatter | auth-server/src/rate_limit.rs:110-138 | other keys and gc anywhere never change a decision |
| Limiters.RunBound | auth-server/src/rate_limit.rs:110-138 | with any other keys and gc at any time, at most 2·limit − 1 admissions of a key in any half-open interval one window long |
| PercentDecoding.DecodePass | gateway/src/flow.rs:307-322 | from left to right, `%` and the two hexadecimal digits of a byte, in either case, become that character, every other byte the character of its number |
| PercentDecoding.PassIs | gateway/src/flow.rs:307-322 | that is what the specification's pass does, and it determines the result |
| Basics.HexDigitIs | gateway/src/flow.rs:332-339 | a hexadecimal digit is a character of "0123456789abcdef" or "0123456789ABCDEF", its value the position |
| PercentDecoding.PassOnSkeleton | gateway/src/flow.rs:307-322 | a pass commutes with replacing non-ASCII runs by one mark |
| PercentDecoding.SkeletonPassShrinks | gateway/src/flow.rs:307-322 | on such skeletons a pass is the identity or shortens |
| PercentDecoding.PassProgress | gateway/src/flow.rs:307-330 | on inputs that settle, every pass that recurses shortens the skeleton: the termination measure |
| PercentDecoding.AsciiSettles | gateway/src/flow.rs:307-330 | where all decodings stay ASCII, each changing one strictly shortens and the recursion ends |
| PercentDecoding.UnsettledDiverges | gateway/src/flow.rs:323-329 | on every other input no recursion depth suffices |
| PercentDecoding.TerminatesExactly | gateway/src/flow.rs:307-330 | the recursion ends exactly on the inputs whose marked decoding settles without a percent sign or without a mark |
| PercentDecoding.DivergingExample | gateway/src/flow.rs:314-329 | `%80%` recurses without end |
| PercentDecoding.UrlencodingDecode | gateway/src/flow.rs:307-330 | on its domain, the first of the repeated passes that has no percent sign or changes nothing |
| PercentDecoding.DotsPersist | gateway/src/flow.rs:307-322 | decoding never pulls two dots apart |
| PercentDecoding.NoNewDots | gateway/src/flow.rs:307-322 | without a percent sign a pass makes no dots meet |
| PercentDecoding.GuardExact | gateway/src/flow.rs:80-90 | the two checks pass exactly when no number of decodings shows `..` |
| PercentDecoding.ResultFixpoint | gateway/src/flow.rs:307-330 | the result is a fixpoint of decoding exactly when it is ASCII |
| PercentDecoding.WideningExample | gateway/src/flow.rs:314-329 | the result for `%80` is not a fixpoint |
| PercentDecoding.AcceptsPath | gateway/src/flow.rs:80-90 | a path is accepted exactly when no number of decodings shows `..` in it; never one with two dots side by side, each written `.`, `%2e` or `%2E` |
| PercentDecoding.WrittenDotsShow | gateway/src/flow.rs:80-90 | two such dots anywhere in a path are `..` after one decoding, whatever stands before them |
| Base32.Encode | auth-core/src/totp.rs:31-48 | the 32-bit shift buffer with stale high bits computes section 6 of RFC 4648 without padding |
| Base32.Encoding | auth-core/src/totp.rs:31-48 | the encoding of n bytes has ⌈8n/5⌉ letters |
| Base32.PushByte | auth-core/src/totp.rs:37-38 | shifting a byte in appends its bits to the live bits, whatever lies above them |
| Base32.OneByte | auth-core/src/totp.rs:31-48 | one byte is two letters: its five high bits, then its three low bits and two zeros |
| Base32.TwoBytes | auth-core/src/totp.rs:31-48 | two bytes are four letters, the last with one bit and four zeros |
| Base32.Vectors | auth-core/src/totp.rs:146-153 | "f" is "MY" and "fo" is "MZXQ", as in section 10 of RFC 4648 |
| Base32.RoundTrip | auth-core/src/totp.rs:31-48 | a decoder inverts the encoding of every byte string |
| AuthRules.ResolveAuthRule | gateway/src/config.rs:626-666 | the answer of the longest covering rule, the earliest among equals (its role, public for the word "public", OWNER for any other word), or none if no rule covers the path |
| AuthRules.ScanRules | gateway/src/config.rs:629-665 | the scan returns the verdict of the first rule that matches |
| AuthRules.BestGoverns | gateway/src/config.rs:626-666 | that rule is found by sorting and scanning |
| AuthRules.MatchesIs | gateway/src/config.rs:630-645 | exact rules cover their path alone, others the paths whose segments begin with theirs |
| AuthRules.SlashRuleExact | gateway/src/config.rs:638-640 | a rule with a trailing slash matches exactly the paths that go on behind its segments |
| AuthRules.SortedFirstIsBest | gateway/src/config.rs:627-629 | the first match after the stable sort is the longest, earliest one |
| AuthRules.BestWins | gateway/src/config.rs:626-666 | the answer is the winner's, and there is none exactly when nothing matches |
| AuthRules.OpenOnlyIfPublic | gateway/src/config.rs:646-662 | public access comes only from a winning rule whose value is exactly "public" |
| AuthRules.OrderIrrelevant | gateway/src/config.rs:626-666 | with distinct prefixes the order of rules does not matter |
| AuthRules.SegmentRuleExact | gateway/src/config.rs:632-644 | a segment rule without trailing slash matches exactly the paths whose segments begin with its own |
| SignedState.UnhexHex | auth-server/src/helpers.rs:277-299 | hex decoding inverts hex encoding, which contains no colon |
| SignedState.FieldsExact | auth-server/src/helpers.rs:289-329 | parsing a payload gives the fields back exactly when flow and invite have no colon |
| SignedState.RoundTripExact | auth-server/src/helpers.rs:277-329 | a signed state verifies, and gives the fields back for every return address exactly when flow and invite have no colon; an empty invite comes back as none |
| SignedState.StateFormat | auth-server/src/helpers.rs:277-284 | flow, return address, invite and their code in lower-case hexadecimal, separated by colons |
| SignedState.VerifiesExactly | auth-server/src/helpers.rs:289-329 | a state verifies exactly when what is behind its last colon is the code, in hexadecimal, of what is before, and that has a colon |
| SignedState.ParsedHasNoColons | auth-server/src/helpers.rs:301-328 | neither the flow nor the invite of a parsed payload has a colon |
| SignedState.VerifiedIsSigned | auth-server/src/helpers.rs:289-329 | whatever verifies carries the code of a payload made up of exactly the fields it yields |

## Left out

- Spans.LocateElement: on streams that are not well nested it is tied to the counting scan only, since there is no element to speak of.
- ConfigStores.ConfigStore.EffectiveConfig: parsing into the typed configuration and validating it are arbitrary functions.
- PercentDecoding.UrlencodingDecode: covers the inputs on which the call returns; on the others there is no result to describe.
- Limiters.RateLimiter.Check: counters are unbounded; a count never exceeds the limit.
- Limiters.RateLimitByUser.OnRequest: counters are unbounded, so the overflow after 2⁶⁴ requests of one user in one window is not modelled.
- Limiters.SameDecisions: compares the limiters on traces where all clock readings within a request are equal.
- `JsonMerge.DeepMerge` returns the merged tree where the source updates an exclusively owned tree in place, so no aliasing is lost.
- quick-xml itself: events with unescaped values are the input; that the parser drops repeated attributes and that `attr_value_str` falls back to the raw value are not modelled. `C14nReader.Read` is a reference reader for canonical text only.
- Parser errors end the stream; what a document after an error means is not stated.
- `saml_dsig::verify`, X.509, RSA, SHA, JWT, DPoP, AES-GCM and WebAuthn: layers over cryptographic libraries. HMAC is an arbitrary function.
- String scanning in `saml.rs` and `saml_sig.rs`: substring searches without a specification to hold them to.
- Capacity and lag of the in-process broadcast channel, and `publish_and_audit`; every process of the modelled network has its bridge attached.
- Several sources writing the dynamic snapshot concurrently: load and store are not one step there.
- Allowlists, CORS and trusted proxies in the hot state, and `classify_patch`: they add only easy members.
- JSON and YAML text; the overlay file holds a document or is missing, blank, not JSON or not text.
- C14nFragments.LocatedExact: unescaping of attribute values and text is an arbitrary function; which transforms a signature names is not modelled.
- `ResponseCache::key`, cacheability predicates and statistics; keys are abstract.
- `RateLimiter::from_env` and the HTTP middleware.
- The header, host and address checks of `RequestValidator`.
- Flow definitions built on the tramli engine, workers, accept loops, TLS, DNS, mTLS and notification providers: engines, stores and sockets that are not part of this model.
