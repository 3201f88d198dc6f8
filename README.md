# asn1_viewer in Dafny

This project models the core of asn1_viewer, a terminal viewer for DER-encoded
ASN.1 data, and proves properties of that model. The core has three parts:

- **Input selection and normalisation** (`src/input/utils.rs`, `src/input/hex.rs`,
  and the validator `is_valid_base64` of `src/input/base64.rs`).
  - The input comes from the `--asn1` argument, a `--file`, or piped stdin, in
    that order of precedence.
  - A file or stdin buffer that is valid UTF-8 is unwrapped. It is split into
    lines, every line starting with `----` (PEM armour) is dropped, and the
    rest are joined with nothing between them.
  - The result is then decoded as base64 or, failing that, as hex. If neither
    applies, it is kept as it is.
  - `src/input/mod.rs` holds an identical copy of these functions (lines
    71-94 and 114-144). The same members model both copies.
- **The decoder** (`src/asn1_der.rs`).
  - It builds a tree of `ASN1Node`s from the `der` crate's TLVs. SEQUENCE
    elements become children, in order.
  - SET, OCTET STRING, APPLICATION, PRIVATE and constructed context-specific
    values decode their content as one nested buffer. A primitive
    context-specific value becomes a synthetic UTF8String leaf, and an
    unsupported tag becomes an `Other` leaf.
  - The module also flattens the tree in pre-order and renders each row.
- **The disclosure engine** (`src/app.rs`).
  - The flattened node list is numbered by position, and the view holds its
    visible nodes. A selection cursor moves over the view.
  - `toggle_selected` expands or collapses the selected node. `update_nodes`
    then cascades that change through the run of deeper nodes after it.

Module layout:

- `wrappers.dfy`: `Option` and `Result`.
- `der.dfy`: the parts of the `der` crate the decoder uses. The crate itself
  is a `Library` record of function values.
- `utf8.dfy`: `str::from_utf8` validity and `String::from_utf8_lossy` repair.
- `asn1_der.dfy`: nodes, values, decoding, flattening and rendering.
- `flat_tree.dfy`: the link between pre-order flattening and the
  level-based scan that `update_nodes` runs.
- `app.dfy`: the `App` class, with `nodes` as an array, plus the view, the
  selection, and the invariant every operation keeps.
- `hex.dfy` and `input_utils.dfy`: input handling.

The central result is the invariant `App.Consistent`.

- It says that:
  - the node list is the numbered flattening of the decoded tree;
  - a shown node has every ancestor shown and expanded;
  - a shown, expanded node shows its children;
  - only expandable nodes are ever expanded;
  - the view is the list's visible nodes;
  - the selection points into the view.
- The constructor establishes it. Every method keeps it.
- `toggle_selected` is proved to flip the selected node, keep the selection on
  the same row, and change nothing outside the node's subtree.

## Model

| member | source | states |
|---|---|---|
| Asn1Der.NewNode | src/asn1_der.rs:63-73 | a new node has the given tag, value, level, expandable and visible flags, is collapsed and has index 0 |
| Asn1Der.IsNodeExpandable | src/asn1_der.rs:206-218 | a tag is expandable exactly when it is SEQUENCE, SET, OCTET STRING, or of the context-specific, application or private class |
| Asn1Der.ToggleExpand | src/asn1_der.rs:75-84 | only `expanded` may change, and it flips exactly when the value is a SEQUENCE, SET, OCTET STRING, context-specific, application or private value |
| Asn1Der.ToggleExpandTwice | src/asn1_der.rs:75-84 | toggling twice gives back the original node |
| Asn1Der.Children | src/asn1_der.rs:32-49 | a SEQUENCE's children are its elements, a wrapping value's child is its one nested node, and every other value has none |
| Asn1Der.GeneralStringFixAsWritten | src/asn1_der.rs:124-130 | the pre-pass as written fails (panics) exactly on the empty buffer, and otherwise agrees with the guarded pre-pass |
| Asn1Der.GeneralStringFix | src/asn1_der.rs:124-130 | the guarded pre-pass keeps the length, replaces a leading octet 27 (GeneralString) by 19 (PrintableString), and keeps every other octet |
| Asn1Der.ParseAsn1 | src/asn1_der.rs:123-137 | a decoded buffer gives a node at the requested level; the whole tree is well-shaped (each child one level down, expandable exactly when a container) and every node is collapsed, hidden and numbered 0 (guarded pre-pass, see Findings) |
| Asn1Der.UnreadableBufferIsNullLeaf | src/asn1_der.rs:132-134 | a buffer the crate cannot read as one TLV decodes to a NULL leaf, not an error |
| Asn1Der.ParseAny | src/asn1_der.rs:139-204 | the node keeps the TLV's tag and the given level, and its subtree is well-shaped and pristine |
| Asn1Der.ParseValue | src/asn1_der.rs:141-202 | the value is a container exactly for the expandable tags, and every nested node is one level down, well-shaped and pristine |
| Asn1Der.ParseElements | src/asn1_der.rs:148-158 | every decoded element of a SEQUENCE is a node at the child level, well-shaped and pristine |
| Asn1Der.SequenceChildrenInOrder | src/asn1_der.rs:148-158 | a SEQUENCE decodes exactly when every element can be read and decoded, and its children are the elements' nodes in reading order, one per element |
| Asn1Der.UnsupportedTagIsOtherLeaf | src/asn1_der.rs:198-201 | an unsupported universal tag decodes to a non-expandable `Other` leaf, not an error |
| Asn1Der.PrimitiveContextSpecificLeaf | src/asn1_der.rs:177-192 | a primitive context-specific value decodes to an expandable node whose one child is a non-expandable UTF8String leaf, one level down, holding the raw content |
| Asn1Der.WrapperDecodesContent | src/asn1_der.rs:143-147 | an OCTET STRING, SET, APPLICATION, PRIVATE or constructed context-specific value decodes exactly when its content decodes one level down, and then wraps that node |
| Asn1Der.EmptyContentPanicsAsWritten | src/asn1_der.rs:124-130 | an OCTET STRING, SET or constructed context-specific value with empty content decodes exactly when the empty buffer decodes one level down, and the pre-pass as written fails on that buffer |
| Asn1Der.EmptyContentIsNullLeaf | src/asn1_der.rs:132-134 | with the guard, such a value decodes, and its one child is a NULL leaf one level down |
| Asn1Der.Flatten | src/asn1_der.rs:220-240 | the flattening starts with the node itself |
| Asn1Der.FlattenPreOrder | src/asn1_der.rs:220-240 | the flattening is the node followed by its children's flattenings in stored order, and a leaf flattens to itself alone |
| Asn1Der.FlattenAllAppend | src/asn1_der.rs:224-228 | flattening a list of siblings distributes over concatenation |
| Asn1Der.FlattenNodes | src/asn1_der.rs:220-240 | the loop that pushes the node and extends with each child's flattening yields exactly the pre-order flattening |
| Asn1Der.Decimal | src/asn1_der.rs:88 | the decimal text of an integer is a non-empty string of digits, with no leading zero unless the integer is zero |
| Asn1Der.DecimalRoundTrip | src/asn1_der.rs:88-90 | the decimal text reads back as the integer it came from |
| Asn1Der.Binary | src/asn1_der.rs:104 | `{:08b}` gives exactly `width` binary digits |
| Asn1Der.BinaryRoundTrip | src/asn1_der.rs:104 | the binary digits of a value below 2^width read back as that value |
| Asn1Der.BitsText | src/asn1_der.rs:102-108 | a BIT STRING renders as eight characters per raw octet |
| Asn1Der.BitsTextAt | src/asn1_der.rs:102-108 | octet k is rendered at characters 8k to 8k+7, and those eight digits read back as the octet |
| Asn1Der.DisplayValue | src/asn1_der.rs:86-114 | a SEQUENCE renders as `(field(s): N)` with N its element count, a wrapping value as the empty string, and a BIT STRING as `BitsText` of its raw octets, eight binary digits per octet |
| Asn1Der.DecodedUtf8StringDisplaysItself | src/asn1_der.rs:95-98 | a decoded UTF8String always renders as its repaired text and never falls back to the empty string |
| Asn1Der.Marker | src/asn1_der.rs:118 | the row marker is `- ` for an expanded container, `+ ` for a collapsed one, and two spaces for a leaf |
| Asn1Der.Indent | src/asn1_der.rs:117 | the indentation is two spaces per level |
| Utf8.LossyWellFormed | src/asn1_der.rs:168 | `from_utf8_lossy` always yields well-formed UTF-8 |
| Utf8.LossyOfWellFormed | src/asn1_der.rs:168 | `from_utf8_lossy` changes nothing in well-formed UTF-8 |
| Utf8.WellFormedSplitAtAscii | src/input/utils.rs:31-32 | splitting a buffer after an ASCII octet (such as a line's '\n') splits its UTF-8 validity into the validity of both parts |
| FlatTree.SubtreeEndIsSubtree | src/app.rs:47-72 | in the flattening of a well-shaped tree, the scan `update_nodes` runs from position t stops exactly at the end of t's subtree, and the nodes it passes over are t's descendants, in pre-order |
| FlatTree.FlattenSlice | src/asn1_der.rs:220-240 | each node's flattening appears, unbroken, in the flattening of the whole tree, starting at that node's position |
| FlatTree.FlattenWellShaped | src/asn1_der.rs:220-240 | every node in a well-shaped tree's flattening is well-shaped |
| FlatTree.FlattenPristine | src/asn1_der.rs:220-240 | the flattening of a freshly decoded tree has every node collapsed, hidden and numbered 0 |
| App.GetView | src/app.rs:118-123 | the view is no longer than the node list |
| App.GetViewAppend | src/app.rs:118-123 | the view of a concatenation is the concatenation of the views |
| App.GetViewMembers | src/app.rs:118-123 | the view holds exactly the visible nodes |
| App.ViewRow | src/app.rs:118-123 | row s of a numbered list's view is the node its index names; that node is visible, and exactly s visible nodes precede it |
| App.ViewIndicesIncrease | src/app.rs:118-123 | the indices of the view's rows strictly increase |
| App.Updated | src/app.rs:47-72 | `update_nodes(t)` keeps every node's decoded fields and index and changes only the run after t. After an expand, the run is collapsed and only its top level is shown; after a collapse, the run is hidden and its flags are kept |
| App.ScanCoversSubtree | src/app.rs:47-72 | in a list with the levels of a flattened tree, the run `update_nodes` rewrites has the length of the toggled node's subtree, and its positions hold exactly that node's descendants in the tree |
| App.ToggledIsStep | src/app.rs:36-45 | toggling a container flips it, keeps its visibility, and rewrites its run as the expand or collapse rule says, leaving the rest of the list unchanged |
| App.StepDisclosed | src/app.rs:36-72 | toggling a shown container keeps two properties: a shown node has its ancestors shown and expanded, and only expandable nodes are expanded |
| App.StepWithinSubtree | src/app.rs:47-72 | a toggle step changes nothing outside the toggled node's subtree |
| App.InitiallyDisclosed | src/app.rs:13-34 | with only the root shown and nothing expanded, the disclosure properties hold and the view is the root alone |
| App.InitiallyConsistent | src/app.rs:13-34 | the numbered flattening of the decoded tree, with the root made visible, satisfies the app invariant with the root as the only row, selected |
| App.ToggleConsistent | src/app.rs:36-45 | toggling the node behind the selected row keeps the app invariant and keeps the row's position in the view. The node flips, and nothing outside its subtree changes |
| App.NextRow | src/app.rs:81-93 | with no selection, the next row is row 0; from row i it is (i + 1) mod the row count; it is always a valid row |
| App.PrevRow | src/app.rs:95-107 | with no selection, the previous row is row 0; from row i it is (i + rows - 1) mod rows, so from row 0 it is the last row |
| App.NavigationInverse | src/app.rs:81-107 | `prev` undoes `next` and `next` undoes `prev`, wrapping from the last row to the first and from the first to the last |
| App.App.constructor | src/app.rs:13-34 | the node array is the decoded tree (root made visible) flattened and numbered by position. Only the root is shown, nothing is expanded, the view is the root, row 0 is selected, and the invariant holds |
| App.App.New | src/app.rs:13-34 | construction fails exactly when decoding at level 0 fails (guarded pre-pass, see Findings). Otherwise it yields a fresh app whose nodes are the decoded tree (root made visible), flattened and numbered by position; only the root is shown, nothing is expanded, the view is the root and row 0 is selected |
| App.App.UpdateNodes | src/app.rs:47-72 | the in-place loop leaves exactly the list `App.Updated` describes |
| App.App.ToggleSelected | src/app.rs:36-45 | with no selection or a non-expandable row, nothing changes. Otherwise the node flips, the list is the toggled list, the selection stays on the same row, nothing outside the subtree changes, and the invariant holds |
| App.App.CopySelectedValue | src/app.rs:74-79 | there is a value exactly when a row is selected, and it is the rendering of the visible node behind that row |
| App.App.Next | src/app.rs:81-93 | the selection moves one row down, wrapping to the first row, and the invariant holds |
| App.App.Prev | src/app.rs:95-107 | the selection moves one row up, wrapping to the last row, and the invariant holds |
| App.App.First | src/app.rs:109-111 | the first row is selected and the invariant holds |
| App.App.Last | src/app.rs:113-115 | the last row is selected and the invariant holds |
| Hex.ValidHexIsPairs | src/input/hex.rs:3-5 | the validator accepts exactly the buffers made of whole two-digit hex pairs |
| Hex.EmptyIsValidHex | src/input/hex.rs:3-5 | the empty buffer counts as hex |
| Hex.OddLengthIsNotHex | src/input/hex.rs:3-5 | a buffer of odd length is never hex |
| Hex.NonDigitIsNotHex | src/input/hex.rs:3-5 | a buffer with any octet that is not an ASCII hex digit is never hex |
| Hex.ValidHexConcat | src/input/hex.rs:3-5 | hex buffers concatenate to a hex buffer, and a hex buffer cut at an even position gives two hex buffers |
| InputUtils.LineLength | src/input/utils.rs:28-31 | a line as `BufRead::lines` reads it runs up to and including the first '\n', or to the end |
| InputUtils.LineText | src/input/utils.rs:31-32 | a line's text is the raw line without a final "\n" or "\r\n" |
| InputUtils.LineTextEnds | src/input/utils.rs:31-32 | a line keeps all of its octets exactly when it does not end in '\n', and loses "\r\n" exactly when it ends in "\r\n" |
| InputUtils.ProcessTextContent | src/input/utils.rs:27-39 | the loop over the lines yields exactly the line-by-line result `ProcessedText` defines |
| InputUtils.ProcessedOkIffWellFormed | src/input/utils.rs:27-39 | processing succeeds exactly when the whole buffer is valid UTF-8 |
| InputUtils.ProcessedIsOneLine | src/input/utils.rs:27-39 | a successful result is valid UTF-8 and holds no '\n' |
| InputUtils.ArmourLineDropped | src/input/utils.rs:33-35 | a line starting with `----` and its line break contribute nothing |
| InputUtils.TextLineKept | src/input/utils.rs:33-35 | any other valid line ending in '\n' (and not in "\r\n") is copied to the output ahead of what follows, with no separator |
| InputUtils.CrLfLineKept | src/input/utils.rs:31-35 | any other valid line ending in "\r\n" is copied without both octets, ahead of what follows, with no separator |
| InputUtils.BadLineFails | src/input/utils.rs:32 | a line that is not valid UTF-8 makes the whole buffer an `InvalidData` error |
| InputUtils.ReadContent | src/input/utils.rs:16-25 | a read error is passed on. A buffer that is not valid UTF-8 is kept as it is; a valid one becomes its line-by-line processed text (`ProcessedText`), which is valid UTF-8 without '\n' |
| InputUtils.IsValidBase64 | src/input/base64.rs:9-15 | a buffer counts as base64 only when the engine decodes it, and never when it decodes to itself |
| InputUtils.EmptyInputGoesToHex | src/input/base64.rs:9-15 | the empty buffer, which the engine decodes to itself or rejects, is not base64 but is hex, so `get_raw_data` hands it to the hex decoder |
| InputUtils.GetRawData | src/input/utils.rs:79-89 | valid base64 is base64-decoded; otherwise valid hex is hex-decoded, or fails with a hex error; otherwise the bytes are kept |
| InputUtils.RawDataErrors | src/input/utils.rs:79-89 | the base64 error never occurs, and the only failure is a hex decoder refusing a buffer the hex validator accepted |
| InputUtils.GetInput | src/input/utils.rs:59-71 | `--asn1` is taken as it is, else the file's content, else piped stdin, and `NoInputProvided` occurs exactly when none of the three is there |
| InputUtils.InputPrecedence | src/input/utils.rs:59-71 | with `--asn1` given, or a file given and read alike, the rest of the environment does not matter |
| InputUtils.GetInputData | src/input/utils.rs:73-77 | the base64 error never reaches the caller; `NoInputProvided` occurs exactly when there is no `--asn1`, no `--file` and no piped stdin; any other failure is an I/O error or the hex error |

## Left out

- The `der` crate is not modelled. Its TLV reader, `Any::from_der`, the
  SEQUENCE element reader and each `decode_as::<T>` are function values of a
  `Der.Library` record. The one property assumed of them is that decoded
  content is strictly shorter than its source buffer.
- `decode_as::<OctetString>` and `decode_as::<Any>` on an `Any` are taken to
  give back that `Any`'s own content and tag.
  - This is why the wrapping arms decode `any.value` directly, and why the
    context-specific arm tests the TLV's own constructed bit.
- Rendering that relies on foreign formatters is left out. This covers
  `{:?}` quoting and escaping of strings, OID and UTC-time display, and
  `Tag::to_string`. `DisplayValue` returns those cases as symbolic
  `Rendering` values.
- `get_view_content` is modelled only by its marker and indentation. The
  format string that joins them with the tag name and the value is left out,
  because the tag name comes from the crate's `Display`.
- The `warn!` log call for unsupported tags is left out, as is the text of
  the `Other` value. `Other` carries the tag instead of a formatted message.
- `level` is `u32` and `index` is `usize` in the source. The model uses `nat`,
  so overflow of a level after 2^32 nesting steps is not modelled.
- `ListState` from `tui` is left out; the selection is an `Option<nat>`.
- The terminal UI, `main.rs`, the event loop, the clipboard and the error
  types' `Display` text are left out. They are I/O or foreign code.
- Reading files and stdin, and detecting whether stdin is a terminal, are
  left out as I/O. They arrive as an `InputUtils.Environment`.
- `Cli::parse` is left out; the parsed arguments arrive as an
  `InputUtils.Cli`.
- The base64 and hex codecs (`base64_decode`, `hex_decode` of
  `src/input/hex.rs:7-9`) are foreign crates, so they are parameters
  (`InputUtils.Codecs`). The codec errors carry no detail.
- `BufReader`'s internal buffering is not modelled. Lines are cut from the
  whole buffer, which gives the same lines.
- Asn1Der.ToggleExpand: modelled as a function returning the updated node.
  `App.App.ToggleSelected` writes that node back into the array in place.
- Asn1Der.ParseElements: the `while !decoder.is_finished()` loop is modelled
  as recursion on the unread bytes. It builds no state beyond the children
  list.
- Asn1Der.DisplayValue: INTEGER, BOOLEAN, NULL, SEQUENCE, the wrappers and
  BIT STRING are computed in full as `Text`, and the contract covers the
  SEQUENCE, wrapper and BIT STRING cases. The UTF8String,
  PrintableString, IA5String, object identifier, UTCTime and `Other` cases
  are symbolic `Rendering` values, because their characters come from a
  foreign formatter.
- The `String` of the `--asn1` argument is taken as its UTF-8 bytes.

## Findings

| source | as written | input that shows it | evidently intended | confidence | as-written member | corrected member |
|---|---|---|---|---|---|---|
| src/asn1_der.rs:124-130 | `parse_asn1` reads `data_vec[0]` without checking the buffer's length, so an empty buffer panics with an index out of bounds | the DER value `04 00` (an empty OCTET STRING), `31 00` (an empty SET, as in the empty attributes of a PKCS #10 request) or `A0 00`, whose empty content is decoded again; or empty input | an empty buffer, like any other buffer the crate cannot read, becomes a NULL leaf | not executed | Asn1Der.GeneralStringFixAsWritten, Asn1Der.EmptyContentPanicsAsWritten | Asn1Der.GeneralStringFix, Asn1Der.EmptyContentIsNullLeaf |
