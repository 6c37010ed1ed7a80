# BETA camp survey dashboard: the slice filter

This project models the one piece of logic in the BETA Camp entrance-survey
dashboard that is not widget or chart wiring: `get_slice_membership`, which
turns the sidebar selections (school types, grades, "sexes", outreach
channels and an age range) into a per-row boolean membership vector, and the
line that applies that vector to the survey table (`df = df[slice_labels]`).
The slider's default range (observed minimum and maximum age) is modelled
too, so that the "untouched sidebar" behaviour can be stated.

Files:

- `wrappers.dfy` (`Wrappers`): `Option` for missing cells and optional arguments, `Result` for raised errors.
- `survey.dfy` (`Survey`): a survey `Row` (each cell optional, NaN being `None`), the categorical columns, column extraction.
- `membership.dfy` (`SliceMembership`): the `Selection` passed to `get_slice_membership`; the per-row meaning `InSlice` (the conjunction of the active criteria) and the vector `Labels`; the vectorised pandas operations (`isin`, `>=`, `<=`); the in-place `labels &= ...` step (`AndAssign`, over an array); and `GetSliceMembership`, which builds the vector step by step as the source does and is proved equal to `Labels`.
- `mask.dfy` (`RowMask`): boolean-mask row selection, characterised by the increasing list of kept indices.
- `sidebar.dfy` (`Sidebar`): the widgets' initial values: empty multiselects and the age slider at (min age, max age).
- `properties.dfy` (`SliceProperties`): what the slice promises for every table and every selection.

Behaviour reproduced as the code has it:

- The sex selection is tested against the `school_level` column (streamlit_app.py:27), although the widget offers the values of `Gender` (streamlit_app.py:76). A row's `Gender` never influences membership.
- `age_range` is indexed at 0 and 1 whenever it is not `None`; its default `[]` (and any one-element range) makes the call raise `IndexError`, modelled as `Failure(AgeRangeIndexError)`. Elements past the second are ignored.
- There is no check that the lower bound is at most the upper one; an inverted range gives an empty slice rather than an error.
- An empty selection list applies no restriction; a missing cell (NaN) never matches a non-empty list and fails both age comparisons.

## Model

| member | source | states |
|---|---|---|
| SliceMembership.GetSliceMembership | streamlit_app.py:8-34 | fails exactly when `age_range` is given with fewer than two elements; otherwise returns one label per row, aligned with the rows, true iff the row meets every active criterion (`Labels`) |
| SliceMembership.AndIsIn | streamlit_app.py:22-29 | `if values: labels &= df[c].isin(values)`: each label becomes old label AND (list empty or cell present and listed) |
| SliceMembership.AndAssign | streamlit_app.py:31-32 | `labels &= test` in place: each label becomes old label AND the test entry, nothing else changes |
| RowMask.Apply | streamlit_app.py:87-87 | the masked table has at most as many rows as the table, and only rows of the table |
| RowMask.Kept | streamlit_app.py:87-87 | the kept indices are in range, strictly increasing, and are exactly the indices marked true |
| RowMask.ApplyPicksKept | streamlit_app.py:87-87 | the masked table is the rows at the kept indices, in original order |
| RowMask.ApplyContains | streamlit_app.py:87-87 | a row value is in the masked table iff it stands at some index the mask marks |
| RowMask.ApplyAllTrue | streamlit_app.py:87-87 | an all-true mask returns the table unchanged, order included |
| RowMask.ApplyNoneTrue | streamlit_app.py:87-87 | an all-false mask returns no rows |
| RowMask.FewerMarksFewerRows | streamlit_app.py:87-87 | a mask whose true entries are among another's keeps no more rows |
| Sidebar.MinAge | streamlit_app.py:81-81 | `df['Age'].min()` is a present age no greater than any present age, and is missing iff every age is |
| Sidebar.MaxAge | streamlit_app.py:82-82 | `df['Age'].max()` is a present age no smaller than any present age, and is missing iff every age is |
| Sidebar.UntouchedSelection | streamlit_app.py:74-84 | the initial selection exists iff some age is present (otherwise `int(NaN)` raises) and then has an indexable age range |
| SliceProperties.SliceIsMatchingRows | streamlit_app.py:86-87 | the slice has at most as many rows as the table and holds exactly the table's rows that meet every active criterion |
| SliceProperties.EmptyListIsInert | streamlit_app.py:22-29 | with an empty list for a filter, membership is decided by the other criteria alone (an empty list is "no restriction", not "match nothing") |
| SliceProperties.RestrictingListNeverAdds | streamlit_app.py:22-29 | giving an inert filter values, or removing values from a list while keeping one, never adds a row and never grows the slice |
| SliceProperties.NarrowingAgeRangeNeverAdds | streamlit_app.py:30-32 | a narrower age range never adds a row and never grows the slice |
| SliceProperties.AddingAgeRangeNeverAdds | streamlit_app.py:30-32 | passing a two-element age range instead of None never adds a row and never grows the slice |
| SliceProperties.InvertedAgeRangeEmptiesSlice | streamlit_app.py:30-32 | with `age_range[0] > age_range[1]` the slice is empty |
| SliceProperties.AgeBoundsInclusive | streamlit_app.py:31-32 | a row passing the lists is kept at age lo and at age hi, and dropped at lo - 1, at hi + 1 and with no age |
| SliceProperties.UntouchedFiltersKeepAgedRows | streamlit_app.py:80-86 | with the sidebar untouched, a row is in the slice iff its age is present; a table with every age present is shown unchanged |
| SliceProperties.GenderNeverAffectsMembership | streamlit_app.py:26-27 | replacing every row's Gender leaves the membership vector unchanged |
| SliceProperties.SexFilterReadsSchoolLevel | streamlit_app.py:26-27 | with a non-empty sex selection that no row's school_level matches, the slice is empty whatever the Gender cells |
| SliceProperties.SexFilterDropsMatchingGender | streamlit_app.py:76-76 | illustration on one row: a student whose Gender equals the selected "Female" is dropped because the value is looked up in school_level |

`IsIn`, `AtLeast`, `AtMost` (pandas `isin`, `>=`, `<=`, with NaN never matching) and `ColumnOf`, `AgeColumn` (`df[c]`) are helpers of the `SliceMembership.AndIsIn` and `SliceMembership.GetSliceMembership` rows and have no rows of their own.

## Left out

- Streamlit widgets, page text and sidebar layout (titles, multiselects, slider, checkbox, `st.write`): user-interface plumbing; the widgets' values enter the model as the `Selection` argument, their initial values as `Sidebar.UntouchedSelection`.
- `load_data` and `pd.read_csv`: file input; the table enters the model as a sequence of rows.
- The `@st.cache` memoisation of `load_data` and `get_slice_membership`: the model's functions are pure, so caching cannot change a result.
- All Altair chart construction, including the grouped counts and averages that Altair computes from encoding strings: a library whose code is not part of this model, and floating-point averaging.
- The commented-out chart blocks: dead code.
- A missing column (pandas `KeyError`): every `Row` has all the columns the filter reads.
- Columns the filter does not read (the rating questions): a row carries only the columns the slice depends on; the mask keeps or drops whole rows either way.
- A selected NaN: pandas `isin` would match a NaN cell against a selected NaN, but selections are modelled as strings only, so a missing cell never matches.
- Grade values are compared by equality only and are modelled as labels (`string`); ages are whole numbers, so the slider's `int(...)` truncation of a fractional min or max age is not modelled.
- The integer dtype of the initial Series of ones: pandas turns `int & bool` into a boolean Series once some `&=` runs, and the model uses booleans throughout. With no active filter (every list empty and `age_range` None) no `&=` runs, the Series stays integer, and `df[...]` at line 87 would read it as column labels and raise `KeyError`; `SliceProperties.Slice` (and the lemmas comparing against it, such as `AddingAgeRangeNeverAdds` and `RestrictingListNeverAdds` from an all-inert selection with no age range) models line 87 only for selections with some active filter, which the page always has because it always passes the slider's pair.
- Masks of another length: `RowMask.Apply` requires one mask entry per row; the source only applies a mask built from the same table, and pandas index alignment of other masks is not modelled.
- The aggregation of a slice by one or two categorical columns (count or average per group): in this program it is done by Altair, not by code of its own.
