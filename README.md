# ServerXMLEditor in Dafny

ServerXMLEditor is an IDE tool window for editing the `server.xml` of a
Liberty application server. The user loads a server configuration, browses a
table of every feature the server installation offers, and reads what a
feature does, which features it enables and which ones enable it. The user can
then add the selected features to the configuration, remove them, or set the
`onError` attribute of the HTTP endpoint.

This project models the logic behind that window and proves what it does:

- `Features` covers the feature record, `Feature`. It is a class with a key
  (`featureName`), a display name, a description and two append-only lists,
  `enables` and `enabledBy`. Equality and hashing use the key only. There are
  two renderers: "join with `, `" or a fixed sentence when the list is empty.
- `Dom` is a value model of the DOM. A node is a text node, a comment or an
  element with a tag, attributes and children. It provides:
  - the document-order search that `getElementsByTagName(...).item(0)`
    performs;
  - the two in-place edits the editor makes (`appendChild` and
    `setAttribute`), written as functions that return the edited tree;
  - the removal of whitespace-only text nodes;
  - an *outline* of a tree: the depth-annotated list of its nodes in document
    order. "Nothing else changes" is stated on the outline.
- `Whitespace` defines the two blank tests the editor uses:
  - XPath 1.0 `normalize-space(.) = ''` (section 4.2 of XPath 1.0), built on
    the `S` production of section 2.3 of XML 1.0 (space, tab, CR, LF);
  - Java `String.trim().length() == 0`, which drops every code point up to
    U+0020.

  The two tests agree on legal XML characters and differ on control
  characters.
- `FeatureManager` covers the edits of `server.xml`: `loadFeatures`,
  `addNewFeature` (with its duplicate check and whitespace stripping),
  `removeFeature` (which also removes a blank previous sibling) and
  `addOnError`. Each edit ends in an `Outcome`:
  - `Written(doc)`: the file is rewritten;
  - `Unchanged`: nothing is written;
  - `Failed(error)`: one of the exceptions the editor catches, after which
    nothing is written.
- `CatalogLoader` covers `loadAllFeatures`. It builds the catalog of features
  in three passes over the feature-list XML: descriptions, then display names,
  then `enables` edges.
  - Each edge is linked in both directions, and the load stops on a dangling
    reference.
  - The shared static list is the field of a class `Catalog`. Each pass is a
    method with a loop over `Feature` objects, proved equal to a value-level
    specification (`Pass1`, `Pass2`, `Pass3`, `LoadSpec`).
  - The properties are proved about those specifications.
- `FeatureEditor` covers the decisions the tool window makes:
  - the `.xml` name test;
  - one table row per feature;
  - the add action over the selected rows;
  - what the three panes show for zero, one or several selected rows, with
    set unions and their own sentinel sentences.

The initial contents of the static feature list are an input of the load,
because the list is never cleared between loads. The file system, the XML
parser and the serializer are replaced by the document value:

- the parsed file is a parameter;
- the written file is the `Written` outcome;
- what `loadAllFeatures` returns is a `LoadResult`: the list, `null`, or the
  process exiting.

## Model

| member | source | states |
|---|---|---|
| Features.Feature.constructor | ServerXMLEditor/src/Feature.java:9-23 | a new feature has the given key and description, no display name, and empty `enables` and `enabledBy` lists |
| Features.Feature.AddEnables | ServerXMLEditor/src/Feature.java:49-51 | `enables` becomes the old list with `x` appended; the key, name, description and `enabledBy` are unchanged |
| Features.Feature.AddEnabledBy | ServerXMLEditor/src/Feature.java:53-55 | `enabledBy` becomes the old list with `x` appended; nothing else changes |
| Features.Feature.SetName | ServerXMLEditor/src/Feature.java:57-59 | only the display name changes, to `x` |
| Features.Render | ServerXMLEditor/src/Feature.java:69-93 | the loop that builds `output` yields the sentinel for an empty list, and otherwise the elements in order joined by ", " |
| Features.Feature.EnablesToString | ServerXMLEditor/src/Feature.java:69-78 | "Does not enable any other features." when `enables` is empty, otherwise the ", " join of `enables` in insertion order |
| Features.Feature.EnabledByToString | ServerXMLEditor/src/Feature.java:84-93 | "Not enabled by any other features." when `enabledBy` is empty, otherwise the ", " join of `enabledBy` in order |
| Features.JoinSnoc | ServerXMLEditor/src/Feature.java:73-77 | each loop step appends ", " and the next element to the join so far |
| Features.JoinOfSeveralHasSeparator | ServerXMLEditor/src/Feature.java:73-77 | the rendering of two or more entries contains the ", " separator |
| Features.DescribeIsSentinel | ServerXMLEditor/src/Feature.java:70-77 | the rendering equals the sentinel exactly when the list is empty or is the sentinel itself, so a one-entry list can look like an empty one |
| Features.SentinelsHaveNoSeparator | ServerXMLEditor/src/Feature.java:70-87 | neither sentinel sentence contains ", " |
| Features.Feature.Equals | ServerXMLEditor/src/Feature.java:35-42 | definition of `equals` on the key; its properties are `EqualsIsKeyEquality` and `EqualsIsTransitive` |
| Features.Feature.HashCode | ServerXMLEditor/src/Feature.java:44-47 | definition of `hashCode` as the key's `String.hashCode`; its properties are `StringHash` and `HashCodeAgreesWithEquals` |
| Features.EqualsIsKeyEquality | ServerXMLEditor/src/Feature.java:35-42 | two features are equal exactly when their keys are equal; equality is symmetric and reflexive; the name, description and lists play no part |
| Features.EqualsIsTransitive | ServerXMLEditor/src/Feature.java:35-42 | equality is transitive |
| Features.HashCodeAgreesWithEquals | ServerXMLEditor/src/Feature.java:44-47 | equal features have equal hash codes |
| Features.StringHash | ServerXMLEditor/src/Feature.java:44-47 | the key's hash is a signed 32-bit value congruent to the polynomial hash modulo 2^32 |
| Features.IndexOf | ServerXMLEditor/src/ServerXMLFeatureManager.java:181-192 | `indexOf` by key: -1 exactly when no feature has the key, and otherwise the first position holding it |
| Features.IndexOfKey | ServerXMLEditor/src/ServerXMLFeatureManager.java:191 | the search loop with a probe `new Feature(key, "")` finds the position `IndexOf` specifies |
| Whitespace.NormalizeSpaceEmpty | ServerXMLEditor/src/ServerXMLFeatureManager.java:73 | `normalize-space(s)` is empty exactly when s consists of XML white space only |
| Whitespace.JavaTrimEmpty | ServerXMLEditor/src/ServerXMLFeatureManager.java:119 | `s.trim()` is empty exactly when every character of s is at most U+0020 |
| Whitespace.BlankTestsAgree | ServerXMLEditor/src/ServerXMLFeatureManager.java:73-119 | on legal XML characters the two blank tests agree |
| Whitespace.VerticalTabSeparatesTests | ServerXMLEditor/src/ServerXMLFeatureManager.java:73-119 | a vertical tab is blank for `trim()` but not for `normalize-space` |
| Dom.FirstElement | ServerXMLEditor/src/ServerXMLFeatureManager.java:57 | the first element with a tag in document order exists exactly when some element has that tag, and it has that tag |
| Dom.FirstInAfterEdit | ServerXMLEditor/src/ServerXMLFeatureManager.java:66-68 | after an edit of the first element with a tag, the first element with that tag is the edited one |
| Dom.EditInOutline | ServerXMLEditor/src/ServerXMLFeatureManager.java:218-219 | an edit of the first element with a tag leaves the outline before and after that element's subtree as it was |
| Dom.StripAll | ServerXMLEditor/src/ServerXMLFeatureManager.java:73-79 | definition of the removal of every `normalize-space`-blank text node; its properties are `StripAllNoBlank`, `StripOutline`, `StripAllNoBlankFixed`, `FirstInAfterStrip` and `TextSurvivesStrip` |
| Dom.StripAllNoBlank | ServerXMLEditor/src/ServerXMLFeatureManager.java:73-79 | after stripping, no whitespace-only text node remains anywhere |
| Dom.StripOutline | ServerXMLEditor/src/ServerXMLFeatureManager.java:73-79 | stripping removes exactly the blank text lines from the outline; every other node keeps its depth and relative order |
| Dom.StripAllNoBlankFixed | ServerXMLEditor/src/ServerXMLFeatureManager.java:73-79 | stripping a tree without blank text changes nothing |
| Dom.FirstInAfterStrip | ServerXMLEditor/src/ServerXMLFeatureManager.java:57-79 | stripping keeps the first element with a tag, itself stripped |
| Dom.TextSurvivesStrip | ServerXMLEditor/src/ServerXMLFeatureManager.java:73-79 | a non-blank text node is in a stripped list exactly when it was in the original list |
| Dom.TextContent | ServerXMLEditor/src/ServerXMLFeatureManager.java:150 | definition of DOM `getTextContent`: a text node's value, a comment's data, and for an element the text of its children with comments skipped; its properties are `FeatureManager.TextContents`, `FeatureManager.LoadFeatures`, `CatalogLoader.EntriesMembers` and `FeatureManager.BlankIdIsAddedAgain` |
| FeatureManager.TextContents | ServerXMLEditor/src/ServerXMLFeatureManager.java:150 | one text content per child, in child order |
| FeatureManager.LoadFeatures | ServerXMLEditor/src/ServerXMLFeatureManager.java:143-153 | the loop returns the text content of every child node, in order, whitespace text included, so its length is the child count |
| FeatureManager.FeatureElement | ServerXMLEditor/src/ServerXMLFeatureManager.java:66-67 | definition of the element `<feature>id</feature>` that `addNewFeature` creates; its properties are `AddFeatureAppends`, `AddFeatureOutline`, `AddFeatureLeavesNoBlank` and `AddFeatureIdempotent` |
| FeatureManager.AddFeature | ServerXMLEditor/src/ServerXMLFeatureManager.java:50-96 | definition of `addNewFeature` on the parsed document; its properties are `AddFeatureOutcomes`, `AddFeatureAppends`, `AddFeatureLeavesNoBlank`, `AddFeatureOutline`, `AddFeatureIdempotent` and `BlankIdIsAddedAgain` |
| FeatureManager.AddNewFeature | ServerXMLEditor/src/ServerXMLFeatureManager.java:50-96 | the method computes the outcome `AddFeature` specifies |
| FeatureManager.AddFeatureOutcomes | ServerXMLEditor/src/ServerXMLFeatureManager.java:57-94 | the add fails exactly when there is no `featureManager`, without writing; it leaves the file unwritten exactly when the id is already among the texts of the first container's children |
| FeatureManager.AddFeatureAppends | ServerXMLEditor/src/ServerXMLFeatureManager.java:57-79 | for a non-blank id, a written add makes the first `featureManager` the stripped old children followed by one new `feature` element whose only child is the id's text |
| FeatureManager.AddFeatureLeavesNoBlank | ServerXMLEditor/src/ServerXMLFeatureManager.java:73-79 | a written document has no whitespace-only text node |
| FeatureManager.AddFeatureOutline | ServerXMLEditor/src/ServerXMLFeatureManager.java:66-79 | the written outline is the old one with the new element's lines after the container's subtree, minus the blank text lines; nothing else moves |
| FeatureManager.AddFeatureIdempotent | ServerXMLEditor/src/ServerXMLFeatureManager.java:60-68 | for a non-blank id, a second add stores the same document as the first, and after a written add the second add takes the no-op branch |
| FeatureManager.BlankIdIsAddedAgain | ServerXMLEditor/src/ServerXMLFeatureManager.java:60-79 | a blank id is stripped out of its own element, so adding it again writes again |
| FeatureManager.ContainerIndex | ServerXMLEditor/src/ServerXMLFeatureManager.java:109-111 | `/server/featureManager`: when found, the root is `server` and the result is the index of its first `featureManager` child |
| FeatureManager.Declares | ServerXMLEditor/src/ServerXMLFeatureManager.java:113 | definition of the match `feature[./text()='id']`: a `feature` element with a text child equal to the id; its properties are `FirstDeclaration`, `RemoveFeatureOutcomes` and `RemoveFeatureCuts` |
| FeatureManager.FirstDeclaration | ServerXMLEditor/src/ServerXMLFeatureManager.java:113-115 | the first `feature` child that has a text child equal to the id, or -1 exactly when there is none |
| FeatureManager.TidiesPrevious | ServerXMLEditor/src/ServerXMLFeatureManager.java:118-119 | definition of the test on the previous sibling: it exists, is a text node, and `trim()` empties it; its properties are `RemoveFeatureCuts` and `RemoveUndoesAdd` |
| FeatureManager.RemoveAt | ServerXMLEditor/src/ServerXMLFeatureManager.java:118-123 | definition of the two `removeChild` calls: the declaration goes, and so does its previous sibling when `TidiesPrevious` holds; its properties are `RemoveFeatureCuts` and `RemoveUndoesAdd` |
| FeatureManager.RemoveFeature | ServerXMLEditor/src/ServerXMLFeatureManager.java:103-136 | definition of `removeFeature` on the parsed document; its properties are `RemoveFeatureOutcomes`, `RemoveFeatureCuts` and `RemoveUndoesAdd` |
| FeatureManager.RemoveFeatureOutcomes | ServerXMLEditor/src/ServerXMLFeatureManager.java:109-135 | removal fails without writing exactly when the container is missing, or when no child of it declares the feature; otherwise it writes |
| FeatureManager.RemoveFeatureCuts | ServerXMLEditor/src/ServerXMLFeatureManager.java:113-123 | a written removal deletes the first declaring `feature` child, and just before it a text sibling whose `trim()` is empty; all other children and nodes stay, in order |
| FeatureManager.RemoveUndoesAdd | ServerXMLEditor/src/ServerXMLFeatureManager.java:66-123 | in a `server` document whose first container does not yet declare a non-blank id, adding and then removing it leaves the original document stripped of blank text |
| FeatureManager.AddOnError | ServerXMLEditor/src/ServerXMLFeatureManager.java:212-233 | definition of `addOnError` on the parsed document; its property is `AddOnErrorSetsOneAttribute` |
| FeatureManager.AddOnErrorSetsOneAttribute | ServerXMLEditor/src/ServerXMLFeatureManager.java:212-233 | the edit fails without writing exactly when there is no `httpEndpoint`; otherwise only the first `httpEndpoint` line of the outline changes, and only by `onError` being set to the value |
| CatalogLoader.Owner | ServerXMLEditor/src/ServerXMLFeatureManager.java:173 | definition of `getNamedItem("name")` on the parent feature, absent when the attribute is (the null that makes :173, :180 and :190 throw); its property is `EntriesMembers` |
| CatalogLoader.EntriesMembers | ServerXMLEditor/src/ServerXMLFeatureManager.java:167-187 | the matches of `/featureInfo/feature/<leaf>` are the `<leaf>` children of the `feature` children of a `featureInfo` root, each with its parent's `name` and its text |
| CatalogLoader.Pass1 | ServerXMLEditor/src/ServerXMLFeatureManager.java:171-176 | definition of the description pass; its properties are `Pass1Appends`, `Pass1Completes` and `Pass1KeepsMutual` |
| CatalogLoader.Pass2 | ServerXMLEditor/src/ServerXMLFeatureManager.java:178-182 | definition of the display-name pass; its properties are `Pass2Completes`, `Pass2KeepsNames`, `Pass2LastNameWins` and `Pass2KeepsMutual` |
| CatalogLoader.Pass3 | ServerXMLEditor/src/ServerXMLFeatureManager.java:188-198 | definition of the `enables` pass; its properties are `Pass3Completes`, `Pass3Stops`, `Pass3KeepsNames`, `Pass3Records` and `Pass3KeepsMutual` |
| CatalogLoader.LoadSpec | ServerXMLEditor/src/ServerXMLFeatureManager.java:171-198 | definition of the three passes in turn; its properties are `LoadCompletes`, `LoadKeepsMutual` and `FirstLoadIsMutual` |
| CatalogLoader.Pass1Appends | ServerXMLEditor/src/ServerXMLFeatureManager.java:171-176 | pass 1 appends one `Feature(name, description)` per description, in document order, up to the first one whose parent lacks a `name`; that one makes the load fail |
| CatalogLoader.Pass1Completes | ServerXMLEditor/src/ServerXMLFeatureManager.java:171-176 | pass 1 completes exactly when every description has a named parent, and then it appends them all |
| CatalogLoader.Pass2Completes | ServerXMLEditor/src/ServerXMLFeatureManager.java:178-204 | pass 2 never exits; it completes exactly when every display name belongs to a named, known feature, and otherwise the load returns null |
| CatalogLoader.Pass2KeepsNames | ServerXMLEditor/src/ServerXMLFeatureManager.java:178-182 | pass 2 leaves the sequence of keys as it was |
| CatalogLoader.Pass2LastNameWins | ServerXMLEditor/src/ServerXMLFeatureManager.java:178-182 | after a completed pass 2 each feature's display name is the text of the last display name naming it, or what it was before; nothing else changes |
| CatalogLoader.Pass3Completes | ServerXMLEditor/src/ServerXMLFeatureManager.java:188-198 | pass 3 completes exactly when every `enables` entry has a named owner and both its owner and its target are known keys |
| CatalogLoader.Pass3Stops | ServerXMLEditor/src/ServerXMLFeatureManager.java:190-195 | pass 3 exits only if some entry's owner or target is not a known key, and fails only if some entry's parent lacks a `name` |
| CatalogLoader.Pass3KeepsNames | ServerXMLEditor/src/ServerXMLFeatureManager.java:188-198 | pass 3 leaves the sequence of keys as it was |
| CatalogLoader.Pass3Records | ServerXMLEditor/src/ServerXMLFeatureManager.java:196-197 | after a completed pass 3 each feature's `enables` has gained, in order, the target of every edge whose owner it is, and its `enabledBy` has gained the owner of every edge that targets it; nothing else changes |
| CatalogLoader.Link | ServerXMLEditor/src/ServerXMLFeatureManager.java:196-197 | definition of one edge: the owner's `enables` gains the target, then the target's `enabledBy` gains the owner; its properties are `LinkAddsEdge`, `Pass3Records`, `Pass3KeepsMutual` and `Catalog.LinkAt` |
| CatalogLoader.LinkAddsEdge | ServerXMLEditor/src/ServerXMLFeatureManager.java:196-197 | one link adds exactly one "owner enables target" and one matching "target is enabled by owner" |
| CatalogLoader.Pass3KeepsMutual | ServerXMLEditor/src/ServerXMLFeatureManager.java:188-198 | pass 3 keeps every "a enables b" matched by a "b is enabled by a", repeats counted |
| CatalogLoader.LoadKeepsMutual | ServerXMLEditor/src/ServerXMLFeatureManager.java:171-198 | however the load ends, a list in which the edges were mutual, repeats counted, stays so |
| CatalogLoader.FirstLoadIsMutual | ServerXMLEditor/src/ServerXMLFeatureManager.java:39-198 | the first load, from the empty static list, ends with every "a enables b" matched by a "b is enabled by a", repeats counted |
| CatalogLoader.LoadCompletes | ServerXMLEditor/src/ServerXMLFeatureManager.java:171-199 | the load returns the list exactly when every description is owned, every display name names a known feature, and every edge's ends are known |
| CatalogLoader.Catalog.constructor | ServerXMLEditor/src/ServerXMLFeatureManager.java:39 | the static list starts empty |
| CatalogLoader.Catalog.AppendDescribed | ServerXMLEditor/src/ServerXMLFeatureManager.java:174-175 | a fresh feature for the entry is appended and the existing objects stay in place |
| CatalogLoader.Catalog.LoadDescriptions | ServerXMLEditor/src/ServerXMLFeatureManager.java:167-176 | the loop leaves the list and status `Pass1` specifies; it never exits, and the objects already listed stay at the front |
| CatalogLoader.Catalog.SetNameAt | ServerXMLEditor/src/ServerXMLFeatureManager.java:181 | only the display name of the feature at k changes |
| CatalogLoader.Catalog.LoadDisplayNames | ServerXMLEditor/src/ServerXMLFeatureManager.java:177-182 | the loop leaves the list and status `Pass2` specifies, and never exits |
| CatalogLoader.Catalog.AddEnablesAt | ServerXMLEditor/src/ServerXMLFeatureManager.java:196 | only the `enables` of the feature at k grows, by the target |
| CatalogLoader.Catalog.AddEnabledByAt | ServerXMLEditor/src/ServerXMLFeatureManager.java:197 | only the `enabledBy` of the feature at r grows, by the owner |
| CatalogLoader.Catalog.LinkAt | ServerXMLEditor/src/ServerXMLFeatureManager.java:196-197 | both halves of one edge are recorded as `Link` specifies |
| CatalogLoader.Catalog.LoadEnables | ServerXMLEditor/src/ServerXMLFeatureManager.java:185-198 | the loop leaves the list and status `Pass3` specifies |
| CatalogLoader.Catalog.LoadAllFeatures | ServerXMLEditor/src/ServerXMLFeatureManager.java:160-205 | the list ends as `LoadSpec` says; the method returns the shared list itself on success, null on a failure and an exit on a dangling edge; the objects listed before stay at the front |
| FeatureEditor.CheckChosenFile | ServerXMLEditor/src/FeatureEditorFactory.java:87 | definition of the name test on the UTF-16 code units Java's `length()` and `substring` count; its properties are `AcceptedNames`, `UpperCaseSuffixRejected` and `WideShortNameRejected` |
| FeatureEditor.AcceptedNames | ServerXMLEditor/src/FeatureEditorFactory.java:87 | a chosen name is accepted exactly when it ends in ".xml", the name ".xml" included; a name of fewer than four UTF-16 code units makes `substring` throw |
| FeatureEditor.UpperCaseSuffixRejected | ServerXMLEditor/src/FeatureEditorFactory.java:87 | the test is case-sensitive: "server.XML" is rejected |
| FeatureEditor.WideShortNameRejected | ServerXMLEditor/src/FeatureEditorFactory.java:87 | a name of two characters beyond U+FFFF is four code units long, so it is rejected with the dialog rather than making `substring` throw |
| FeatureEditor.EditorState.constructor | ServerXMLEditor/src/FeatureEditorFactory.java:39-41 | the tool window starts with no chosen file, an empty feature list, no rows and the three panes set to "" as at :198-200 |
| FeatureEditor.RowsOf | ServerXMLEditor/src/FeatureEditorFactory.java:222-224 | one row per feature, in list order, holding its key and its display name |
| FeatureEditor.RowsResolveToTheirFeature | ServerXMLEditor/src/FeatureEditorFactory.java:248-249 | the id in a row looks up a feature with that key at or before the row, and the row's own feature when the keys are distinct |
| FeatureEditor.EditorState.LoadTableFeatures | ServerXMLEditor/src/FeatureEditorFactory.java:213-231 | the list becomes what the load returned, and one row per feature is added after the rows already present; a null load leaves a null list and no new rows |
| FeatureEditor.EditorState.OnFileChosen | ServerXMLEditor/src/FeatureEditorFactory.java:85-107 | the file is remembered before its name is tested; only an accepted name loads the table |
| FeatureEditor.EditorState.AddSelected | ServerXMLEditor/src/FeatureEditorFactory.java:140-149 | without a chosen file nothing is added; otherwise `addNewFeature` runs once per selected id, in selection order, each on the document the previous one stored |
| FeatureEditor.AddAll | ServerXMLEditor/src/FeatureEditorFactory.java:140-149 | definition of the stored document after `addNewFeature` for each selected id in turn; its properties are `AddAllLists` and `AddAllKeepsListed`, and `EditorState.AddSelected` computes it |
| FeatureEditor.AddAllLists | ServerXMLEditor/src/FeatureEditorFactory.java:140-149 | after the add action every selected non-blank id is listed in the first container, unless it was already listed; in a document without blank text every one is listed |
| FeatureEditor.AddAllKeepsListed | ServerXMLEditor/src/FeatureEditorFactory.java:140-149 | in a document without blank text, the add action keeps every listed id listed |
| FeatureEditor.EmptyListShowsNothing | ServerXMLEditor/src/FeatureEditorFactory.java:243 | with an empty feature list the panes are left alone |
| FeatureEditor.SelectionPanes | ServerXMLEditor/src/FeatureEditorFactory.java:242-279 | definition of what the three panes show for the selected ids; its properties are `EmptyListShowsNothing`, `NoSelectionClearsPanes`, `SingleSelection`, `MultipleSelection`, `MultipleSelectionIgnoresOrder` and `SentinelsOfOneAndMany` |
| FeatureEditor.NoSelectionClearsPanes | ServerXMLEditor/src/FeatureEditorFactory.java:257-261 | with features listed and no row selected, all three panes are set to "" |
| FeatureEditor.SingleSelection | ServerXMLEditor/src/FeatureEditorFactory.java:247-255 | one selected id shows the description and the two renderings of the first feature with that key, or of the first feature when the key is unknown |
| FeatureEditor.MultipleSelection | ServerXMLEditor/src/FeatureEditorFactory.java:263-277 | several selected ids show "Multiple features selected."; each list pane holds exactly the names some selected feature lists, or its sentinel exactly when none lists any |
| FeatureEditor.EnablesUnionMembers | ServerXMLEditor/src/FeatureEditorFactory.java:267-272 | x is in the `enables` union exactly when some selected feature's `enables` holds x |
| FeatureEditor.EnabledByUnionMembers | ServerXMLEditor/src/FeatureEditorFactory.java:267-272 | x is in the `enabledBy` union exactly when some selected feature's `enabledBy` holds x |
| FeatureEditor.UnionsEmpty | ServerXMLEditor/src/FeatureEditorFactory.java:273-276 | a union is empty exactly when every selected feature's list is |
| FeatureEditor.MultipleSelectionIgnoresOrder | ServerXMLEditor/src/FeatureEditorFactory.java:264-276 | with several rows selected, neither their order nor repeats change what the panes show |
| FeatureEditor.SentinelsOfOneAndMany | ServerXMLEditor/src/FeatureEditorFactory.java:274-276 | the empty-`enabledBy` sentence for several features differs from the one for a single feature, while the empty-`enables` sentences agree |
| FeatureEditor.Resolve | ServerXMLEditor/src/FeatureEditorFactory.java:248-249 | definition of `indexOf` with the fall-back to row 0, also used at :268-269; its properties are `Lookup`, `RowsResolveToTheirFeature`, `SingleSelection`, `EnablesUnionMembers` and `EnabledByUnionMembers` |
| FeatureEditor.Lookup | ServerXMLEditor/src/FeatureEditorFactory.java:248-249 | the row index is that of the first feature with the key, or 0 when the key is unknown |
| FeatureEditor.ShowOne | ServerXMLEditor/src/FeatureEditorFactory.java:247-255 | the panes for one selected id are those `SelectionPanes` specifies |
| FeatureEditor.ShowMany | ServerXMLEditor/src/FeatureEditorFactory.java:263-277 | the loop filling the two sets yields the panes `SelectionPanes` specifies |
| FeatureEditor.EditorState.GetTableSelection | ServerXMLEditor/src/FeatureEditorFactory.java:242-279 | the panes change as `SelectionPanes` says; nothing changes when the list is empty, nor when it is null, where `featureList.size()` throws an uncaught exception; and the list, rows and file never change |

## Left out

- The XML parser and the serializer (`DocumentBuilder`, and `Transformer` with an indent of two) are library code. A document is a tree value, and writing is the `Written` outcome. Bytes, encodings and indentation are not modelled.
- The XPath engine is replaced by direct searches over children. Because of that, the query string built at ServerXMLEditor/src/ServerXMLFeatureManager.java:113 is not modelled, and neither is its failure on ids containing `'`.
- When the matching `feature` lies under a later `featureManager` than the first one, `removeChild` throws. The model folds that case into `FeatureNotFound`, together with the null result of the query.
- The DOM edits happen in place in the source. The model states them as functions that return the edited tree, so node identity and aliasing are not modelled.
- CDATA sections, processing instructions, entity references and namespaces are not part of the node type. The parser does not coalesce CDATA, so a CDATA section stays a node of its own. It counts as text for the blank-text strip (ServerXMLEditor/src/ServerXMLFeatureManager.java:73), for the `./text()` match (:113) and for `getTextContent` (:150). It does not count as text for the `TEXT_NODE` test at :119, so `removeFeature` keeps a blank CDATA section just before a declaration, which `addNewFeature` would have stripped. A processing instruction under `featureManager` behaves as a `Comment` does: `loadFeatures` lists its data (:150), and no other test matches it.
- Features.StringHash: computes `String.hashCode` on characters, not on UTF-16 code units, so surrogate pairs are not modelled. Nothing in the editor hashes features except through equality.
- `System.exit` (ServerXMLEditor/src/ServerXMLFeatureManager.java:194) is modelled as the status `Exited`, and `loadAllFeatures` as the result `ProcessExited`. The process is not terminated. `LoadTableFeatures` leaves the state unchanged in that case.
- `printStackTrace`, the console messages and the unused static `doc` field (ServerXMLEditor/src/ServerXMLFeatureManager.java:40) have no effect on the model.
- `Runtime.exec` of `ws-featurelist.jar` and the Windows path building (ServerXMLEditor/src/FeatureEditorFactory.java:215-220) are an external process and file-system layout. The catalog document is a parameter of the load. Two failures inside the `try` (ServerXMLEditor/src/FeatureEditorFactory.java:214-220) throw before `loadAllFeatures` runs: a chosen file too shallow in the directory tree makes one of the chained `getParentFile()` calls return null, and `exec` can fail. Both leave `featureList`, the rows and the static list as they were. The model expresses them only by passing `ProcessExited` to `LoadTableFeatures`, whose state effect is the same.
- ServerXMLEditor/src/ServerXMLDocumentManager.java is not part of this model. It is editor glue that reloads and writes the file, and `refreshEditor` (ServerXMLEditor/src/FeatureEditorFactory.java:236-240) only calls it.
- The Swing and IDE wiring is not modelled: listeners, the file chooser, dialogs, enabling buttons and the tool-window content.
- The handlers of the remove button and the `onError` combo box (ServerXMLEditor/src/FeatureEditorFactory.java:158-185) are not modelled as methods. Each only calls `removeFeature` or `addOnError`, which are modelled.
- FeatureEditor.AddAll: a write followed by the next call's re-parse is taken as the identity on the tree. The program re-reads the file the indenting serializer wrote, which adds whitespace text between elements. So the re-read tree differs from the written one by blank text nodes, and by indentation inside any declaration with element content. For text-only declarations this does not change which ids are listed.
- FeatureEditor.AddAllLists: its second conclusion assumes the document read back has no blank text, as the written one has. Indentation added by the serializer breaks that assumption in the program. The first conclusion does not use that assumption, but it still takes each write and re-read as the identity.
- FeatureEditor.AddAllKeepsListed: assumes a document without blank text at each step, which the written tree has and the re-read file need not have, for the reason given for `FeatureEditor.AddAll`.
- FeatureManager.AddFeatureIdempotent: the second add is applied to the tree the first one wrote, not to its re-parse. The duplicate check reads text contents, and for a text-only declaration no indentation goes inside the element, so the check sees the same id there.
- FeatureManager.RemoveUndoesAdd: the removal is applied to the tree the add wrote, not to its re-parse. In the program, the indentation that the serializer puts before the new element is then the blank previous sibling that the removal also deletes.
- FeatureEditor.EditorState.GetTableSelection: with a null feature list the program throws an uncaught exception at `featureList.size()`. The model leaves the state unchanged, which is the state effect of that exception.
- FeatureEditor.MultipleSelection: shows a union as a set. The rendering order of `HashSet.toString()` is unspecified, so that text is not modelled.
- The table's current selection is an input. The single-selection branch reads `getSelectedRow()`, which is the one selected row.
