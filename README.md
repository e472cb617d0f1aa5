# Light table demo window: row naming, creation, deletion and icons

This project models the collection logic of the demo window of a Unity
editor table-view widget (`DemoWindow.cs`). The window owns an array of
light records (`LightItem`: enabled flag, name, light type, shape, colour,
intensity) that a generic table view draws and edits. Four pieces of that
window are modelled and proved:

- **Unique names.** `GetUniqueLightName` tries `"Light 1"`, `"Light 2"`, …
  and returns the first name no row holds. It is a `while` loop in a method
  of the `DemoWindow` class. The proof shows that it returns a name nobody
  holds, that every lower candidate is held (minimality), and that the index
  never exceeds the number of rows plus one. That last bound is the
  termination argument: it is a pigeonhole lemma over the injective map from
  index to name. Injectivity rests on a decimal printer `NatToString` with
  its parser `ParseNat` and a round-trip lemma.
- **Create New.** The title bar first stores the type pop-up's value. A click
  on "Create New" then appends exactly one fresh, enabled row with the
  unique name, the selected type and a (random) shape, and finally draws a
  (random) next type. Every earlier row keeps its position.
- **Delete.** A row's "Delete" button keeps every row that is not
  reference-equal to the clicked one, in order (`Where(x => x != item)`).
  Rows are objects, so `==` on them is reference equality, as in C#.
- **Icons.** `GetLightIcon` is a switch over the light type with a default
  case.

Module layout: `Naming` (naming.dfy) holds candidate names and the
lowest-free-index specification. `Removal` (removal.dfy) holds the
order-preserving filter. `Lights` (lights.dfy) holds the enumerations, the
icon map and the `LightItem` class. `Demo` (demo_window.dfy) holds the
`DemoWindow` class and a click session that uses it.

The window replaces `_lightItems` with a new array on every change and
never writes into the array itself, so the model keeps the rows in a
`seq<LightItem>` field that the methods reassign.

Deletion keeps every row that is not reference-equal to the clicked one
(`Where(x => x != item)`). Under the class invariant `Valid()` no row object
is listed twice, because every created row is a fresh object. So a present
row is removed exactly once, and an absent row leaves the array unchanged.

## Model

| member | source | states |
|---|---|---|
| `Naming.NatToString` | DemoWindow.cs:202 | the text of an index is one or more decimal digits, a single digit exactly for indices below 10, with no leading zero |
| `Naming.Candidate` | DemoWindow.cs:202-206 | the name tried for index k is "Light " followed by the decimal text of k |
| `Naming.NatToStringRoundTrip` | DemoWindow.cs:202 | the decimal text appended to "Light " reads back as the same index |
| `Naming.NatToStringInjective` | DemoWindow.cs:206 | two indices have the same decimal text exactly when they are equal |
| `Naming.CandidateInjective` | DemoWindow.cs:202-206 | "Light " + i and "Light " + j are the same name exactly when i = j |
| `Naming.PigeonholeBound` | DemoWindow.cs:203-207 | if every candidate below k is held, there are at least k - 1 rows, so the loop index never exceeds row count + 1 |
| `Naming.SearchFrom` | DemoWindow.cs:201-207 | counting up from k (all below k held) stops at an index r with k <= r <= count + 1 whose name is free and all of whose predecessors are held |
| `Naming.LowestFreeIndex` | DemoWindow.cs:199-210 | the chosen index is at least 1, at most row count + 1, free, and every smaller candidate is held |
| `Naming.UniqueLightName` | DemoWindow.cs:199-210 | the generated name is held by no row |
| `Naming.LowestFreeUnique` | DemoWindow.cs:201-207 | an index is free with all smaller ones held exactly when it is the index the search returns |
| `Naming.ConsecutiveLowestFree` | DemoWindow.cs:199-210 | when the rows hold "Light 1" … "Light k", the next index is k + 1 |
| `Naming.Creations` | DemoWindow.cs:178 | after k creations there are k names, and the name the k-th creation adds differs from every earlier one |
| `Naming.CreationsAreConsecutive` | DemoWindow.cs:173-184 | k successive creations from no rows produce "Light 1" … "Light k", in order |
| `Naming.RemovedNameIsReused` | DemoWindow.cs:199-209 | removing the only holder of "Light j", with j below the lowest free index, makes "Light j" the next name |
| `Naming.ConsecutiveRefill` | DemoWindow.cs:145 | after "Light j" is deleted from "Light 1" … "Light k", the next creation is named "Light j" again |
| `Removal.Without` | DemoWindow.cs:145 | the filtered rows never contain the clicked row, contain every other row and only rows of the input, and are shorter exactly when the clicked row was present |
| `Removal.WithoutConcat` | DemoWindow.cs:145 | filtering distributes over concatenation, so the kept rows stay in their relative order |
| `Removal.WithoutMultiset` | DemoWindow.cs:145 | the multiset of rows loses every copy of the clicked row and nothing else |
| `Removal.WithoutAbsent` | DemoWindow.cs:145 | a row that is not present leaves the sequence unchanged |
| `Removal.WithoutIdempotent` | DemoWindow.cs:145 | deleting the same row a second time changes nothing |
| `Removal.WithoutAtUniquePosition` | DemoWindow.cs:145 | a row present at exactly one position p is removed by cutting out position p |
| `Removal.WithoutDistinct` | DemoWindow.cs:145 | filtering keeps rows free of repetitions |
| `Removal.WithoutDistinctLength` | DemoWindow.cs:145 | on rows without repetitions, a present row is removed exactly once and an absent one removes nothing |
| `Lights.LightIcon` | DemoWindow.cs:231-246 | Directional, Spot, Area and Disc get their own icon, each exactly for that type; every other type gets "d_Light Icon" |
| `Lights.LightIconRange` | DemoWindow.cs:231-246 | the lookup is total and its five results are pairwise distinct |
| `Lights.LightItem.constructor` | DemoWindow.cs:35-43 | a new record carries exactly the given enabled flag, name, type and shape |
| `Demo.DemoWindow.constructor` | DemoWindow.cs:49-52 | a new window has no rows, selects Directional, and satisfies the invariant |
| `Demo.DemoWindow.GetUniqueLightName` | DemoWindow.cs:199-210 | returns a name no row holds, "Light k" for the lowest such k, reading the rows without changing anything |
| `Demo.DemoWindow.CreateNew` | DemoWindow.cs:171-187 | appends exactly one fresh, enabled row with the unique name, the previously selected type and the drawn shape; earlier rows keep their positions and names; then selects the drawn next type |
| `Demo.DemoWindow.TitleGUI` | DemoWindow.cs:164-190 | stores the pop-up's type; without a click nothing else changes; with a click one fresh, enabled row is appended with the unique name, the pop-up's type and the drawn shape, earlier rows and names are kept, and the drawn next type is selected |
| `Demo.DemoWindow.Delete` | DemoWindow.cs:141-147 | the rows become the input without the clicked row, in order; a present row goes exactly once, taking its name out of the name list at its position; an absent row changes nothing |
| `Demo.DeleteThenCreate` | DemoWindow.cs:171-187 | three creations in a new window name the rows "Light 1", "Light 2" and "Light 3"; after the second row is deleted, the next creation is "Light 2" |

## Left out

- All host GUI drawing and layout: button and pop-up results become method parameters. This includes `EditorGUI`, `GUILayout`, `EditorGUILayout`, styles, `Rect` arithmetic, `ShowWindow`, `OnGUI` sequencing and `StatusGUI`.
- The generic table view (column layout, sort state, cell dispatch). Its source is not part of this model. The sort comparators passed to it at DemoWindow.cs:97, 112 and 139 go with it.
- The cell callbacks that edit a row in place: the toggle, name text field, type and shape pop-ups, colour field and intensity slider (DemoWindow.cs:79-139). Because a user can type any name, names are plain strings. Uniqueness holds only for a newly created row, so the model states no invariant that all names are distinct.
- `GetRandomColor`, `GetRandomLightType` and `GetRandomLightShape` (DemoWindow.cs:212-229). They draw from the host's random source, so their values are parameters.
- Demo.DemoWindow.CreateNew: the random next type may be any light type, not only the first three members of the enumeration that `Random.Range(0, 3)` can produce. Their numbering is the host's.
- The colour and intensity fields of `LightItem`, including the intensity rounding at DemoWindow.cs:182. Both are floating point.
- Demo.DemoWindow.GetUniqueLightName: the C# `int index` is modelled as an unbounded natural. It is proved never to exceed the row count + 1, so it cannot overflow for any array .NET can allocate.
- The enumeration values other than the five named light types (codes 0 to 4 in the host) are folded into `OtherType(code)` with a code outside 0 to 4, because the host's enumeration is not part of this model.
