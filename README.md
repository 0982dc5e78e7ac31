# Request building and visual-tree walking, modelled in Dafny

This project models two helper classes from `Helper.cs`:

- **`HttpWebHelper`**: three static builders prepare an `HttpWebRequest` and then send it.
  - `CreateGetHttpResponse` builds a GET request.
  - `CreatePostHttpResponse` builds a POST request whose body comes from a dictionary of form parameters.
  - `CreatePostHttpResponseEx` builds a POST request whose body is a string, sent as given.

  The model covers everything these builders do before `GetResponse`:
  - argument validation, where an `ArgumentNullException` is modelled as `Failure(ArgumentNull(name))`;
  - the method, content type and user agent (the caller's, or the built-in Mozilla/4.0 string);
  - keep-alive, write buffering, timeout and cookies;
  - whether the https branch ran;
  - the exact text of the body.

  A request is a record (`HttpRequest`). Each builder fills it in field by field, as the C# code fills in the framework object. A field left at `None` keeps the framework's default.

- **`DependencyObjectHelper`**: extension methods that walk a WPF element tree.
  - `GetParent`: the visual parent, and otherwise the logical parent of a `FrameworkElement`.
  - `GetParents`: the chain of parents up to the root.
  - `ParentOfType`: the first parent of a given type.
  - `GetChildrenRecursive`: every element below a given one.
  - `ChildrenOfType`, `FindFirstChildByType` and `FindLastChildByType`: the elements below of a given type, and the first or last of them.

  The tree is a finite map `UiGraph` from node ids to elements. Each element records:
  - its type names;
  - its ordered visual children;
  - its visual parent and its logical parent;
  - two ranks: `depth`, which strictly decreases along parent links, and `height`, which strictly decreases along child links.

  `WellFormed` requires these links to agree: each child names its parent as visual parent, and each element with a visual parent is listed among that parent's children. The ranks show that walking up and walking down both end.

The code walks the tree depth-first in pre-order, although the doc comment at `Helper.cs:379` says "breadth-first search". The model follows the code, and `PreOrder` and `ChildrenInIndexOrder` state the order it produces.

Modules:
- `Wrappers` (`wrappers.dfy`): `Option`, `Result` and the argument error.
- `Strings` (`strings.dfy`): joining with a separator, splitting as its inverse, cutting at the first `=`, and ASCII case-insensitive prefix.
- `Seqs` (`seqs.dfy`): the concatenation of blocks, and duplicate-freedom.
- `HttpWebHelper` (`http_web_helper.dfy`).
- `DependencyObjectHelper` (`dependency_object_helper.dfy`).

## Model

| member | source | states |
|---|---|---|
| HttpWebHelper.CreateGetRequest | Helper.cs:82-109 | Fails with `ArgumentNull("url")` exactly when the url is null or empty. Otherwise the request is a GET for that url with write buffering off and the caller's keep-alive. The user agent is the caller's when it is non-empty, and the default string otherwise. Timeout and cookies are set exactly when given. There is no content type and no body. |
| HttpWebHelper.CreatePostBase | Helper.cs:131-163 | The configuration shared by both POST builders: a POST with content type `application/x-www-form-urlencoded`. The https setup runs exactly when the url starts with "https", ignoring case. The user agent is the caller's if non-empty and the default otherwise. Timeout and cookies are passed through unchanged. Nothing else is set. |
| HttpWebHelper.CreatePostRequest | Helper.cs:121-187 | The url error comes before the encoding error, and the request succeeds exactly when neither applies. The request has the POST configuration, and keep-alive and write buffering stay at the framework default. There is no body when the parameters are null or empty; otherwise the body is `FormBody` of the parameters. |
| HttpWebHelper.CreatePostRequestEx | Helper.cs:195-249 | The same validation and POST configuration as `CreatePostRequest`, with keep-alive and write buffering left at the framework default. The body is the caller's string, unchanged, whenever it is non-null (an empty string included), and absent when it is null. |
| HttpWebHelper.BuildFormBody | Helper.cs:165-180 | The key loop produces exactly `FormBody`: every `key=value` field in enumeration order, joined by `&`, with no separator before the first field. |
| HttpWebHelper.Lookup | Helper.cs:173-177 | `parameters[key]` returns the value stored under that key in the dictionary, whose keys are distinct. |
| HttpWebHelper.Keys | Helper.cs:169 | `parameters.Keys` lists the keys of the entries, one per entry, in enumeration order. |
| HttpWebHelper.FormBodySnoc | Helper.cs:171-178 | One more entry adds just its field to the body, preceded by `&` unless it is the first. |
| HttpWebHelper.FormBodyEnds | Helper.cs:171-178 | A non-empty body starts with the first field and ends with the last: no separator is placed before the first field or after the last. When no key or value contains `&`, the body's first and last characters are not `&`. |
| HttpWebHelper.FormBodySeparators | Helper.cs:171-178 | When no key or value contains `&`, n entries give exactly n - 1 `&` separators. |
| HttpWebHelper.FormBodyRoundTrip | Helper.cs:165-180 | When keys contain neither `&` nor `=` and values contain no `&`, splitting the body at `&` and then at the first `=` gives back the entries, in order, with null values read as "". |
| HttpWebHelper.FormBodyOfTwoEntries | Helper.cs:173-177 | `{a:1, b:2}` is sent as `a=1&b=2`. |
| HttpWebHelper.FormBodyIsAmbiguous | Helper.cs:173-177 | Keys and values are not escaped, so `{a:"1&b=2"}` and `{a:1, b:2}` are sent as the same body. |
| DependencyObjectHelper.GetParent | Helper.cs:332-344 | The visual parent when there is one. Otherwise the logical parent of a `FrameworkElement`. Otherwise none. |
| DependencyObjectHelper.Ancestors | Helper.cs:352-360 | Every parent the walk reaches is in the tree and lies strictly closer to the root than where the walk started. |
| DependencyObjectHelper.GetParents | Helper.cs:346-361 | Fails with `ArgumentNull("element")` for a null element. Otherwise the loop yields exactly `Ancestors`: repeated `GetParent` until it returns null. |
| DependencyObjectHelper.AncestorsChain | Helper.cs:352-360 | The chain starts with `GetParent` of the element. Each next entry is `GetParent` of the one before it. The last entry has no parent, and the chain is empty exactly when the element has no parent. |
| DependencyObjectHelper.AncestorsNearestFirst | Helper.cs:352-360 | Parents are yielded nearest first, with depth strictly decreasing along the sequence, so no parent repeats. |
| DependencyObjectHelper.ParentOfType | Helper.cs:369-376 | None for a null element. Otherwise the first parent of the type, or none when no parent has that type. |
| DependencyObjectHelper.Blocks | Helper.cs:419-427 | One block per visual child. Block `i` is the `i`-th child followed by that child's own recursive walk. |
| DependencyObjectHelper.GetChildrenRecursive | Helper.cs:413-428 | Fails with `ArgumentNull("element")` for a null element. Otherwise the index loop yields exactly `Descendants`, the blocks of all children in index order. |
| DependencyObjectHelper.BlockSplit | Helper.cs:419-427 | The walk is the blocks before child `i`, then child `i`'s block, then the blocks after it. The offset after block `i` is the offset before it plus the block's length. |
| DependencyObjectHelper.PreOrder | Helper.cs:419-427 | The `i`-th child sits at its block's offset. It is followed immediately by all of its descendants, and the next block starts right after them: a depth-first, pre-order walk. |
| DependencyObjectHelper.ChildrenInIndexOrder | Helper.cs:419 | Children are visited in increasing index order: their offsets in the walk strictly increase. |
| DependencyObjectHelper.OffsetGrows | Helper.cs:419-427 | Each child's block is non-empty, so the next child starts strictly later. |
| DependencyObjectHelper.ChildIsDescendant | Helper.cs:421-422 | Every visual child is yielded. |
| DependencyObjectHelper.DescendantOfChild | Helper.cs:423-426 | Whatever a child's block yields is yielded by the parent's walk. |
| DependencyObjectHelper.DescendantsBelow | Helper.cs:413-428 | Everything yielded lies strictly below the element: greater depth and smaller height. |
| DependencyObjectHelper.DescendantParent | Helper.cs:413-428 | Every yielded element has a visual parent, which is either the element itself or something else the walk yields. |
| DependencyObjectHelper.SameSubtree | Helper.cs:419-427 | Subtrees of two different children of the same parent share no element. |
| DependencyObjectHelper.DescendantsDistinct | Helper.cs:413-428 | The walk yields no element twice and never yields the element itself. |
| DependencyObjectHelper.DescendantsTransitive | Helper.cs:423-426 | A descendant of a descendant is a descendant. |
| DependencyObjectHelper.DescendantsExactly | Helper.cs:413-428 | An element is yielded exactly when the start element is on its chain of visual parents (both directions). |
| DependencyObjectHelper.DescendantHasAncestor | Helper.cs:346-361 | Walking `GetParents` up from anything the walk yields reaches the start element again. |
| DependencyObjectHelper.OfType | Helper.cs:410 | `OfType<T>` keeps exactly the elements of type `T`. |
| DependencyObjectHelper.OfTypeAppend | Helper.cs:410 | `OfType<T>` keeps order and multiplicity: filtering a concatenation is the concatenation of the filtered parts. |
| DependencyObjectHelper.OfTypeSingle | Helper.cs:410 | A single element is kept exactly when it has the type. With `OfTypeAppend`, this fixes the filtered sequence completely. |
| DependencyObjectHelper.OfTypeSnoc | Helper.cs:410 | Filtering a non-empty sequence filters its front, then keeps its last element exactly when that element has the type. |
| DependencyObjectHelper.OfTypeDistinct | Helper.cs:410 | Filtering a sequence with no repeats gives a sequence with no repeats. |
| DependencyObjectHelper.FirstOfTypeSelects | Helper.cs:375 | `OfType().FirstOrDefault()` gives the first element of the type, with no earlier element of that type, or none when there is no such element. |
| DependencyObjectHelper.LastOfTypeSkips | Helper.cs:402 | An element without the type, appended at the end, leaves the last element of the type unchanged, or still none. |
| DependencyObjectHelper.LastOfTypeSelects | Helper.cs:402 | `OfType().LastOrDefault()` gives the last element of the type, with no later element of that type, or none when there is no such element. |
| DependencyObjectHelper.ChildrenOfType | Helper.cs:408-411 | Fails with `ArgumentNull("element")` for a null element. Otherwise it holds exactly the elements of the walk that have the type. |
| DependencyObjectHelper.FindFirstChildByType | Helper.cs:389-392 | Fails for a null element. Otherwise the first element of the type in pre-order, or none. |
| DependencyObjectHelper.FindLastChildByType | Helper.cs:400-403 | Fails for a null element. Otherwise the last element of the type in pre-order, or none. |

## Left out

- `GetResponse`, `GetRequestStream`, `Stream.Write` and `Encoding.GetBytes` are left out: they are network I/O and the framework's encoders. The model stops at the configured request and the body text, and the encoding is only checked for null.
- The global `ServicePointManager` settings are left out because they are process-wide side effects, not request fields. These are `DefaultConnectionLimit = 1000` and the certificate callback that accepts every certificate. `GC.Collect()` is left out for the same reason.
- The https branch is kept only as the `httpsSetup` flag, which stands for "certificate callback installed, HTTP/1.0 selected". The `CachePolicy` object of the GET builder and the `HttpVersion` value are not modelled.
- Framework validation inside the setters is left out, as it is framework code outside `Helper.cs`: the range check on `Timeout`, URI parsing in `WebRequest.Create`, and the checks of `CookieContainer.Add`. A timeout is stored as given and a cookie collection as a sequence.
- StartsWithIgnoreCase folds case for ASCII letters only. The source's `StringComparison.OrdinalIgnoreCase` also folds other Unicode letters, but the prefix compared, "https", is ASCII.
- Dictionary enumeration order is taken as the order of the entry sequence, since `IDictionary` does not fix one.
- GetParents, GetChildrenRecursive and ChildrenOfType compute their whole sequence at once. The C# iterators are lazy: their null check and the walk run only when the caller first enumerates, and a caller may stop early. The yielded sequence is the same.
- The `WellFormed` ranks (`depth`, `height`) do not exist in WPF. They state that the tree is finite and acyclic, which the framework guarantees. A tree changed during a walk is not modelled.
- `VisualTreeHelper.GetChild`/`GetChildrenCount` and `FrameworkElement.Parent` become map lookups. The generic type argument `T` becomes a type name tested against the element's set of type names.
- DependencyObjectHelper.ChildrenOfType: its own contract states which elements are kept, not their order. The order is stated by `OfTypeAppend` and `OfTypeSingle` about the `OfType` it returns, and by `FirstOfTypeSelects` and `LastOfTypeSelects`.
- CreateGetRequest, CreatePostRequest, CreatePostRequestEx: for a url whose scheme is not http or https (`ftp:`, `file:`), `WebRequest.Create(url) as HttpWebRequest` yields null. The next assignment then throws `NullReferenceException` (Helper.cs:90-91, 136-143, 210-217). The model does not parse urls, so it returns a configured request for every non-empty url and does not have this failure.
- GetParent, GetParents, ParentOfType, GetChildrenRecursive, ChildrenOfType, FindFirstChildByType, FindLastChildByType: every element is treated as a `Visual`. In WPF, `VisualTreeHelper.GetParent` and `GetChildrenCount` throw `InvalidOperationException` for an element that is not a `Visual` or `Visual3D`. `GetParents` can reach such an element through the logical-parent fallback (Helper.cs:340, then Helper.cs:334), and `GetChildrenRecursive` throws at Helper.cs:419 when started on one. The model has no such failure.
- The other helper classes in `Helper.cs` are outside this model: `BitmapHelper`, `JsonHelper`, `MathHelper` and `TPLHelper`.
