# Pager window of the blog index

This project models the pager-window computation of a Django blog: the
method `IndexView.pagination_data` in `blog/views.py`. It receives the
current page number `n`, the total page count `total` (the paginator's
`num_pages`), the page range `1..total` and the `is_paginated` flag. It
returns either the empty dictionary or six template variables:

- `left` and `right`: up to two page numbers on each side of `n`;
- `first` and `last`: whether to link to page 1 and to page `total`;
- `left_has_more` and `right_has_more`: whether to show an ellipsis
  between that link and the window.

Two modules:

- `PySeq` (`pyseq.dfy`) models the Python list behaviour the method relies
  on. `Interval` is `range(lo, hi)`. `PySlice` is `s[lo:hi]`, which
  normalises negative bounds and clips out-of-range ones.
- `Pagination` (`pagination.dfy`) holds `PaginationData`. It follows
  `pagination_data` branch for branch on every input, including inputs the paginator
  never produces. Reading `right[-1]` or `left[0]` of an empty list raises
  `IndexError` in Python, and the model has a separate `IndexError`
  outcome for that. `ClosedForm` is an independent closed-form
  description. `MatchesClosedForm` proves the two agree on every input
  that satisfies the paginator's guarantee (`PaginatedInput`): whenever
  `is_paginated` holds, `total >= 2` and `1 <= n <= total`.

The closed form: `left` is the pages `max(1, n-2) .. n-1`. `right` is the
pages `n+1 .. min(n+2, total)`. The flags are:

- `first <=> n >= 4`
- `left_has_more <=> n >= 5`
- `last <=> n <= total-3`
- `right_has_more <=> n <= total-4`

So `total - 1` in the `right_has_more` test mirrors `> 2` in the
`left_has_more` test exactly. `MirrorSymmetry` and `MirrorFlags` prove
that the whole result is symmetric under `n -> total + 1 - n`.

## Model

| member | source | states |
|---|---|---|
| `PySeq.Interval` | blog/views.py:59 | `range(lo, hi)`: `hi - lo` entries (none when `hi <= lo`), the entry at index `k` being `lo + k` |
| `PySeq.PySlice` | blog/views.py:64 | Python slicing on every pair of bounds: the result has `max(0, stop - start)` entries, where `start` and `stop` are the bounds normalised by `SliceBound`; entry `k` is `s[start + k]`. Spelled out: in-range bounds give the plain sub-list; a stop past the end is clipped to the end; a negative bound counts from the end; a stop at or before the start gives the empty list |
| `PySeq.SliceBound` | blog/views.py:75 | a slice bound is normalised Python's way: a negative bound counts from the end, and the result is clipped into `[0, len]` |
| `PySeq.SliceOfInterval` | blog/views.py:59-64 | slicing the run `first .. first+len-1` with non-negative bounds `lo`, `hi` gives the run `first+lo .. first+min(hi,len)-1` |
| `Pagination.PageRange` | blog/views.py:59 | `page_range` holds `total` entries, and the entry at index `k` is page `k+1` |
| `Pagination.LeftStart` | blog/views.py:75 | the left slice's start index `(n-3) if (n-3) > 0 else 0` is `max(0, n-3)`: never negative, never below `n-3`, and equal to one of them |
| `Pagination.Last` | blog/views.py:66 | `right[-1]` of a non-empty list is one of its elements, and the largest one when the list ascends |
| `Pagination.PaginationData` | blog/views.py:37-107 | for every input: the empty dictionary exactly when `is_paginated` is false; on page 1, `left` is empty and `first`/`left_has_more` are false; on the last page (other than 1), `right` is empty and `last`/`right_has_more` are false; each ellipsis flag implies its boundary link |
| `Pagination.RightSlice` | blog/views.py:64 | `page_range[n:n+2]` is exactly the pages `n+1 .. min(n+2, total)` |
| `Pagination.LeftSlice` | blog/views.py:85 | `page_range[max(n-3,0):n-1]` is exactly the pages `max(1, n-2) .. n-1` |
| `Pagination.MatchesClosedForm` | blog/views.py:37-107 | on every input the paginator can produce, the result is the empty dictionary when not paginated and otherwise the closed-form window and flags |
| `Pagination.NeverRaises` | blog/views.py:62-97 | `right[-1]` and `left[0]` are never taken on an empty list when `is_paginated` implies `total >= 2` and `1 <= n <= total` |
| `Pagination.NotPaginatedIsEmpty` | blog/views.py:39-40 | without pagination the result is the empty dictionary, whatever `n` and `total` are |
| `Pagination.WindowBounds` | blog/views.py:59-86 | each side holds at most two pages within `[1, total]`; `left` lies below `n` and `right` above it, so neither contains `n` |
| `Pagination.WindowAscending` | blog/views.py:64-86 | `left` and `right` both ascend strictly |
| `Pagination.WindowContiguous` | blog/views.py:64-86 | `left + [n] + right` is the run of consecutive pages `max(1,n-2) .. min(n+2,total)` |
| `Pagination.LeftFlagsMeaning` | blog/views.py:76-81 | `first` holds iff page 1 is neither current nor in `left`; `left_has_more` holds iff some page strictly between 1 and `n` is hidden |
| `Pagination.RightFlagsMeaning` | blog/views.py:65-70 | `last` holds iff page `total` is neither current nor in `right`; `right_has_more` holds iff some page strictly between `n` and `total` is hidden |
| `Pagination.FlagsFromEnds` | blog/views.py:62-97 | in every branch, `first <=> left[0] > 1`, `left_has_more <=> left[0] > 2`, `last <=> right[-1] < total` and `right_has_more <=> right[-1] < total-1`; a flag is false when its side is empty; each ellipsis implies its boundary link |
| `Pagination.FirstPage` | blog/views.py:43-70 | on page 1, `left` is empty and `first` and `left_has_more` stay false; `right` is non-empty and starts at page 2 |
| `Pagination.LastPage` | blog/views.py:43-81 | on the last page, `right` is empty and `last` and `right_has_more` stay false; `left` is non-empty and ends at page `total-1` |
| `Pagination.MirrorSymmetry` | blog/views.py:62-97 | page `total+1-n` shows the reflection of what page `n` shows: the reflected `right` becomes `left` and the reflected `left` becomes `right` |
| `Pagination.MirrorFlags` | blog/views.py:62-97 | page `total+1-n` swaps `first`/`last` and `left_has_more`/`right_has_more` relative to page `n` |
| `Pagination.ExampleMiddle` | blog/views.py:83-97 | 10 pages, page 5: `left=[3,4]`, `right=[6,7]`, all four flags true |
| `Pagination.ExampleSmall` | blog/views.py:83-97 | 3 pages, page 2: `left=[1]`, `right=[3]`, all flags false |
| `Pagination.ExampleEnds` | blog/views.py:62-81 | 10 pages: page 1 gives `right=[2,3]` with `last` and `right_has_more`; page 10 gives `left=[8,9]` with `first` and `left_has_more` |
| `Pagination.UncheckedInputs` | blog/views.py:55-97 | the method does no range check of its own. `is_paginated` with a single page raises; page `total+1` raises; page 0 gives a left window of all pages but the last |

## Left out

- `IndexView.get_context_data` (blog/views.py:18-34) is framework plumbing.
  The model takes the page number and the total as parameters. It does not
  reproduce the context lookup, which reads the misspelled key `'page_boj'`
  and would pass `None` as the page.
- How the paginator derives `num_pages` and `is_paginated` (page size 5,
  rounding up) is Django code and is not part of this model. It enters only
  as the hypothesis `PaginatedInput`.
- The `index()` view quoted inside a string literal (blog/views.py:109-127)
  is dead code.
- The detail, archive, category and tag views, the ORM models
  (blog/models.py, comments/models.py) and the template tags
  (blog/templatetags/blog_tags.py) are left out. They are database queries,
  markdown rendering and template rendering, with no local logic beyond
  trivial string prefixes.
- The method does no range check and raises no "invalid page" error of its
  own. It trusts the paginator to supply `1 <= n <= total`, and it relies on
  the `is_paginated` guard for the single-page case. The model follows the
  code: `UncheckedInputs` shows that with the flag set and one page, or
  with page `total+1`, it raises `IndexError`, and that page 0 yields an
  oversized left window.
