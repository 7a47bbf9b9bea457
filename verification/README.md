# pandas Series: value and label bookkeeping in Dafny

A pandas `Series` (`pandas/core/series.py`) is a one-dimensional value buffer paired with a sequence of labels of the same length and an optional name.
This project models the part of the class that keeps values and labels together:

- alignment of two Series through an outer join, and the arithmetic wrapper built on it;
- `_binop` with its fill value; the positional comparison and boolean operators;
- `reindex`, `_reindex_indexer`, `align` and `take`;
- `combine`, `combine_first`, `update`, `where` and `mask`;
- `order`, `argsort` and `sort`;
- `shift`, `fillna`, `dropna`, `count`, `cumsum`/`cumprod`, and `first_valid_index`/`last_valid_index`;
- label access and mutation: `get`, `get_value`, `set_value`, `__setitem__`, `_set_with`, `_set_labels`, `_set_values` and `_check_bool_indexer`;
- `replace` with explicit values, and `rename`.

The value domain is `Val = NA | V(int)`.
A buffer has a kind: `IntKind` (which cannot hold NA, `_can_hold_na`) or `FloatKind`.

Operations that only compute are functions over the value type `Frames.Frame(values, labels, name, kind)`.
Operations that change a Series step by step are methods of the class `SeriesClass.Series`.
That class holds a `values` array, `labels`, `name` and `kind`, with the invariant `Valid()`: the lengths agree and an integer buffer holds no NA.
Each method is proved against the Frame function that specifies it.
Errors the source raises are the constructors of `Values.Error`, returned through `Result`/`Option`.

The label index (`pandas.core.index`) is not part of this model.
Its results enter as inputs constrained by predicates:

- a join is the joined labels plus, per side, an indexer (`Labels.Join`, `JoinFits`);
- a `get_indexer` lookup is a position or -1 per target label (`Labels.Gathers`);
- `self.index + other.index` is a label sequence `u`.

A label read through the index engine answers for the first position holding the label (`Labels.Locate`); a label written through it is written at every position holding it (`Access.LabelPositions`).

Modules follow the structure of the class:

- `Values`: value domain, kinds and errors.
- `Labels`: labels, lookup, join and indexer shapes, and `take_1d`.
- `Frames`: the Series value and numpy primitives: `putmask`, boolean selection, fancy assignment.
- `Missing`: fillna, dropna, valid index, cumulative operations, shift.
- `Alignment`: the reindex/align engine and the operator families.
- `Access`: get, take, the key-kind dispatch and the setters' targets.
- `Sorting`: the stable argsort, `order`, `argsort`.
- `Combining`: combine, combine_first, update, where, mask.
- `Replacing`: replace.
- `Renaming`: rename.
- `SeriesClass`: the class and its in-place methods.

## Model

| member | source | states |
|---|---|---|
| Values.Upcast | pandas/core/series.py:862-863 | a buffer stays integer only if it holds no NA; without NA the kind is kept |
| Values.NullMask | pandas/core/series.py:1338 | `isnull`: the mask is true exactly at the missing slots |
| Values.NotNullMask | pandas/core/series.py:1789 | `notnull`: the mask is true exactly at the non-missing slots |
| Values.CountValid | pandas/core/series.py:1164 | `count()` is at most the length; it equals the length iff there is no NA and is 0 iff every slot is NA |
| Values.JoinKinds | pandas/core/series.py:55 | an elementwise result can hold NA when either operand can, and two operands of one kind give that kind |
| Values.ApplyOp | pandas/core/series.py:59-64 | an arithmetic result is missing iff either operand is missing, otherwise the operator applied to both |
| Values.CompareVals | pandas/core/series.py:120 | a comparison involving NA is false, except `!=`, which is true |
| Labels.Locate | pandas/core/series.py:832 | the lookup gives -1 iff the label is absent, otherwise the first position holding it |
| Labels.IsIntegerIndex | pandas/core/series.py:529 | `index.inferred_type == 'integer'`: holds iff every label is an integer; an empty label sequence counts as integer-typed |
| Labels.Take | pandas/core/series.py:2188 | `take_1d`: slot k is the source at `idx[k]`, or the fill value where `idx[k]` is -1 |
| Frames.MatchName | pandas/core/series.py:211-215 | the result has a name iff both names are present and equal, and then it is that name |
| Frames.Get | pandas/core/series.py:786-789 | `get(label, default)` gives the default for an absent label, otherwise the value at the label's first position |
| Frames.GetUnique | pandas/core/series.py:786-789 | with unique labels, `get` of the label at position p is the value at p |
| Frames.PutMask | pandas/core/series.py:1790 | `np.putmask`: slot i is the source where the mask holds, the old value elsewhere |
| Frames.MaskPositions | pandas/core/series.py:676-677 | a boolean key selects positions in range at which the mask holds |
| Frames.CountValidPositions | pandas/core/series.py:2863 | `count()` equals the number of positions `notnull` selects |
| Frames.Select | pandas/core/series.py:1957 | `arr[p]` with `index[p]`: slot k carries the value and the label of position `p[k]`; name and kind kept |
| Frames.WrapAll | pandas/core/series.py:2288 | in-range positions, negative ones counted from the end, all in [0, n) |
| Frames.Scatter | pandas/core/series.py:695 | `values[ps] = src`: unlisted slots keep their value; a position's last write wins |
| Missing.FillNAFrame | pandas/core/series.py:2321-2327 | an integer Series is returned unchanged; otherwise exactly the missing slots take the value; labels, name and kind kept |
| Missing.ValidPositions | pandas/core/series.py:2863 | `notnull(arr)` as positions: increasing, each non-missing, every non-missing position listed, `count()` of them |
| Missing.DropNA | pandas/core/series.py:2859-2863 | `remove_na`: the Series selected at exactly the non-missing positions, in increasing order; no NA remains, the length is `count()`, and every non-missing value survives with its label |
| Missing.ArgMin | pandas/core/series.py:2578 | `mask.argmin()`: the first false slot, or 0 when all slots are true |
| Missing.FirstValidIndex | pandas/core/series.py:2570-2582 | None iff every slot is NA; otherwise the label of a non-missing slot with only NA before it |
| Missing.LastValidIndex | pandas/core/series.py:2584-2596 | None iff every slot is NA; otherwise the label of a non-missing slot with only NA after it |
| Missing.RunningAt | pandas/core/series.py:1341 | numpy's running sum or product at i is the total of the prefix when that prefix has no NA, else NA |
| Missing.TotalOfFilled | pandas/core/series.py:1338-1341 | putting the unit (0 for sum, 1 for product) into the missing slots leaves the total unchanged and removes every NA |
| Missing.Running | pandas/core/series.py:1341 | numpy's `cumsum`/`cumprod` gives one slot per input slot; each slot's value is `RunningAt` |
| Missing.RunningNoNA | pandas/core/series.py:1336 | a running total of a buffer without NA has no NA, so an integer result stays integer |
| Missing.CumulativeFrame | pandas/core/series.py:1334-1346 | with skipna on a floating Series, NA slots stay NA and the others hold the total of the non-missing prefix; otherwise an NA makes every later slot NA; the result has no name |
| Missing.Shifted | pandas/core/series.py:2635-2640 | slot i holds the value at i - p when that position exists, else NA; same length |
| Missing.ShiftFrame | pandas/core/series.py:2617-2642 | shift keeps the labels and name; p == 0 gives the Series itself; values are `Shifted` |
| Missing.ShiftTwice | pandas/core/series.py:2635-2640 | two shifts in the same direction equal one shift by the sum |
| Missing.ShiftBack | pandas/core/series.py:2635-2640 | shifting back restores every value not pushed off the end |
| Alignment.ReindexIndexer | pandas/core/series.py:2186-2197 | with no indexer the Series comes back as it is; otherwise it carries the new labels, name kept |
| Alignment.SideAtLabel | pandas/core/series.py:2177-2178 | one side of a join holds, at each joined label, its own value there or NA |
| Alignment.Align | pandas/core/series.py:2173-2184 | both sides carry the joined labels and keep their own names |
| Alignment.AlignAtLabel | pandas/core/series.py:2173-2184 | at each joined label each side holds its value there; missing or absent slots give NA, or the fill value when one is given |
| Alignment.Reindex | pandas/core/series.py:2230-2248 | None raises InvalidIndex; an equal index returns the Series; an empty source gives all NA; labels become the target |
| Alignment.ReindexAtLabel | pandas/core/series.py:2245-2248 | with unique labels, each new label holds the Series' value there, or the fill value |
| Alignment.Operands | pandas/core/series.py:71-87 | equal labels pair the buffers as they are; otherwise both are reindexed onto the join |
| Alignment.OperandsAtLabel | pandas/core/series.py:77-87 | with unique labels, the paired operands at each label are what each Series holds there, NA if absent |
| Alignment.Arith | pandas/core/series.py:68-98 | against a Series: the paired values with the operator applied and the matched name; against a scalar: broadcast, with labels and name kept |
| Alignment.ArithAtLabel | pandas/core/series.py:77-92 | with unique labels, the result at each joined label is the operator on both values there, NA where either lacks it |
| Alignment.FillApply | pandas/core/series.py:1705-1716 | missing on both sides stays NA; missing on exactly one side uses the fill value on that side; no fill means the plain operator |
| Alignment.BinopFrame | pandas/core/series.py:1692-1718 | `_binop` keeps the name only when both share it, and its labels are the caller's or the join's |
| Alignment.BinopAtLabel | pandas/core/series.py:1698-1716 | with unique labels, each joined label holds the fill rule applied to both Series' values there |
| Alignment.BinopWithoutFill | pandas/core/series.py:1695-1718 | without a fill value, `_binop` gives the arithmetic wrapper's Series |
| Alignment.Compare | pandas/core/series.py:124-150 | comparisons pair values by position, a one-slot operand being broadcast; another length raises ShapeMismatch; a scalar NA against an integer Series raises through `convert_scalar`; the caller's labels and the matched name are kept |
| Alignment.CompareBroadcast | pandas/core/series.py:137-150 | comparing with a one-slot array gives the same Series as comparing with its value as a scalar, whenever the scalar is accepted |
| Alignment.Logical | pandas/core/series.py:178-191 | `&`, `\|`, `^` pair booleans by position, a one-slot Series being broadcast; another length raises; the name is matched |
| Access.TakePositions | pandas/core/series.py:2286-2289 | `take` succeeds iff every position is in [-n, n); slot k carries the value and label at the wrapped position |
| Access.GetValue | pandas/core/series.py:820-832 | an absent label raises KeyNotFound; a present one gives the value at its first position |
| Access.GetIsGetValue | pandas/core/series.py:786-789 | `get` is `get_value` with the KeyError turned into the default |
| Access.InferKeyType | pandas/core/series.py:524-527 | `lib.infer_dtype(key)`: integer iff the key is non-empty and all integers, boolean iff non-empty and all booleans; an empty key is neither |
| Access.ByLabel | pandas/core/series.py:528-537 | the dispatch rule of `_get_with` and `_set_with`: on an integer index every non-boolean key is read as labels; on another index only a key that is neither all integers nor all booleans; an empty key always |
| Access.GetWith | pandas/core/series.py:523-544 | an integer key on an integer index, or a non-integer non-boolean key, reindexes; an integer key otherwise takes positions; a boolean key of the right length selects |
| Access.GetWithAtLabel | pandas/core/series.py:528-537 | a key read as labels holds at each key label the Series' value there, NA if absent |
| Access.CheckBoolIndexer | pandas/core/series.py:708-722 | a mask with NA raises NAInMask; a Series key on another index is reindexed, and raises iff one of the caller's labels is absent from it |
| Access.CheckBoolIndexerAtLabel | pandas/core/series.py:712-714 | with unique key labels, each accepted bit is the key's bit at the same label |
| Access.SetWithTargets | pandas/core/series.py:663-691 | `_set_with`/`_set_labels`: labels are written at their positions and an absent label raises before any write; integer keys wrap; a boolean key selects |
| Access.LabelPositions | pandas/core/series.py:618-622 | `index.get_loc(x)` as positions: exactly the positions holding x, increasing, none iff x is absent |
| Access.SetItemTargets | pandas/core/series.py:615-645 | a present label is written at every position holding it; an absent integer on a non-integer index is a position; other absent labels raise KeyNotFound; lists go through `_set_with`; masks through `_check_bool_indexer` |
| Access.CheckAssigned | pandas/core/series.py:695 | an assignment is accepted iff numpy can broadcast it (a scalar, a sequence as long as the positions, or a one-element sequence) and an integer buffer receives no NA; the first failure is ShapeMismatch, the second UnrepresentableMissing |
| Access.Sources | pandas/core/series.py:695 | one value per position: the scalar, the sequence's own entry, or its single entry broadcast |
| Access.WriteAt | pandas/core/series.py:693-695 | a refused value changes nothing; otherwise unlisted slots keep their value, each listed slot gets its (broadcast) value with the last write winning, and an integer buffer gets no NA |
| Access.WriteAtMask | pandas/core/series.py:676-677 | writing a scalar at the positions a mask selects is `putmask` with that scalar |
| Access.SetValueFrame | pandas/core/series.py:853-863 | a present label: every slot holding it becomes the value and every other slot is kept, labels and kind unchanged; an absent one gives the Series with the label and value appended; NA into an integer slot raises |
| Access.SetValueThenGet | pandas/core/series.py:853-863 | after `set_value(x, v)`, `get(x)` is v |
| Access.SetValueKeepsOthers | pandas/core/series.py:853-863 | after `set_value(x, v)`, `get(y)` for every other label is unchanged |
| Sorting.Argsort | pandas/core/series.py:1930 | the mergesort argsort lists positions in range, one per key |
| Sorting.ArgsortIsPermutation | pandas/core/series.py:1927-1933 | the argsort lists every position exactly once |
| Sorting.ArgsortSorted | pandas/core/series.py:1927-1933 | the keys read along the argsort never decrease |
| Sorting.ArgsortStable | pandas/core/series.py:1927-1933 | equal keys keep their original order (mergesort is stable) |
| Sorting.GoodPositions | pandas/core/series.py:1941-1943 | `idx[good]`: positions of non-missing slots |
| Sorting.GoodArgsort | pandas/core/series.py:1943 | `_try_mergesort(arr[good])`: a permutation of the non-missing values' indices along which those values never decrease |
| Sorting.NAPositions | pandas/core/series.py:1951 | `idx[bad]`: positions of missing slots |
| Sorting.CountSplit | pandas/core/series.py:1949-1953 | `good.sum() + bad.sum()` is the length, and `good.sum()` is `count()` |
| Sorting.GoodOrder | pandas/core/series.py:1943-1950 | `idx[good][argsorted]` lists non-missing positions only |
| Sorting.GoodOrderSorted | pandas/core/series.py:1943-1946 | the non-missing block is ascending, or descending when asked |
| Sorting.DescendingIsReversed | pandas/core/series.py:1945-1946 | a descending sort is the ascending argsort reversed |
| Sorting.Place | pandas/core/series.py:1948-1955 | the two slices of `sortedIdx`: good then bad when `na_last`, otherwise bad then good |
| Sorting.SortPermutation | pandas/core/series.py:1935-1955 | the `sortedIdx` buffer has the Series' length and positions in range |
| Sorting.OrderIsPermutation | pandas/core/series.py:1948-1955 | `order` visits every position exactly once |
| Sorting.OrderPlacesNA | pandas/core/series.py:1948-1955 | NA values fill the last slots when `na_last`, the first otherwise; the rest are non-missing |
| Sorting.OrderSorted | pandas/core/series.py:1943-1955 | non-missing values come in ascending (or descending) order |
| Sorting.OrderStableAscending | pandas/core/series.py:1927-1933 | ascending, equal values keep their original order |
| Sorting.OrderKeepsNAOrder | pandas/core/series.py:1951 | the NA entries keep their original relative order |
| Sorting.OrderFrame | pandas/core/series.py:1957-1958 | slot k carries the value and the label at `sortedIdx[k]`; name and kind kept |
| Sorting.ScatterKeepsNA | pandas/core/series.py:1877 | writing into exactly the non-missing slots keeps the NA pattern |
| Sorting.ArgsortFrame | pandas/core/series.py:1871-1881 | `argsort` leaves NA where it was, fills the other slots with the argsort of the non-missing values, and is integer without NA |
| Sorting.TakeArgsortIsOrder | pandas/core/series.py:1879-1881 | without NA, taking the positions `argsort` returns gives `order()` |
| Combining.ReindexNAAtLabel | pandas/core/series.py:1773-1774 | reindexing with NA fill puts at each new label the Series' value there, NA if absent |
| Combining.CombineFirstFrame | pandas/core/series.py:1772-1777 | `combine_first` carries the union labels and the matched name |
| Combining.CombineFirstAtLabel | pandas/core/series.py:1776 | each label holds the caller's value when non-missing, else the other's |
| Combining.CombineFirstKeepsCaller | pandas/core/series.py:1772-1777 | every non-missing value of the caller survives at its label in the union |
| Combining.CombineFrame | pandas/core/series.py:1745-1757 | against a Series: func of both `get`s per union label; raises iff an integer buffer would get NA; against a scalar: func slot by slot, labels and name kept |
| Combining.CombineIsArith | pandas/core/series.py:1745-1752 | on floating buffers, `combine` with an arithmetic operator and NA fill equals the arithmetic wrapper |
| Combining.UpdateFrame | pandas/core/series.py:1788-1790 | `update` keeps the labels, name, kind and length |
| Combining.UpdateAtLabel | pandas/core/series.py:1788-1790 | a position takes the other's value exactly when that value is non-missing; other positions keep theirs |
| Combining.UpdateIdempotent | pandas/core/series.py:1788-1790 | a second update with the same Series changes nothing |
| Combining.UpdateWithItself | pandas/core/series.py:1788-1790 | updating with itself leaves the Series unchanged |
| Combining.ReindexedCond | pandas/core/series.py:578-579 | a condition array is used as is; a condition Series is reindexed with True fill and has the caller's length; an empty one on other labels cannot be inverted |
| Combining.ReindexedCondAtLabel | pandas/core/series.py:579 | the condition at each label is the condition Series' bit there, or True when it lacks the label |
| Combining.OtherValues | pandas/core/series.py:591-592 | an array replacement is used as is; a Series replacement is reindexed to the caller's length |
| Combining.SetWhere | pandas/core/series.py:587-589 | a scalar is written where the condition fails; NA into an integer buffer raises before any write |
| Combining.PutWhere | pandas/core/series.py:596 | `np.putmask(ser, ~cond, other)`; NA stored into an integer buffer is reported |
| Combining.WhereFrame | pandas/core/series.py:578-598 | succeeds iff the checks pass (shape, condition length, replacement length, kind); slot i is self[i] where cond holds, the replacement elsewhere |
| Combining.WhereAllTrue | pandas/core/series.py:578-598 | a condition true everywhere leaves the Series unchanged |
| Combining.InvertCond | pandas/core/series.py:613 | `~cond` negates every bit; `~` on a list raises |
| Combining.MaskFrame | pandas/core/series.py:600-613 | `mask` is `where(~cond, nan)`: a list raises BadOperandType; a result keeps the labels and name |
| Combining.MaskAt | pandas/core/series.py:613 | on a floating Series, NA exactly where the mask holds and the old value elsewhere |
| Combining.MaskRefusesInteger | pandas/core/series.py:613 | `mask` on an integer Series always raises |
| Combining.MaskKeepsAbsentLabels | pandas/core/series.py:578-613 | labels the condition Series lacks keep their values |
| Replacing.MatchMask | pandas/core/series.py:2385 | `mask_missing`: true exactly at slots holding one of the sources, NA matching NA |
| Replacing.RepOne | pandas/core/series.py:2384-2387 | each slot holding a source takes the value; others unchanged |
| Replacing.Replaced | pandas/core/series.py:2389-2408 | the meaning of a dict replacement: each source slot takes its destination, reading only the original value |
| Replacing.Masks | pandas/core/series.py:2399-2401 | every mask is taken from the original buffer |
| Replacing.ApplyMasksAt | pandas/core/series.py:2399-2404 | applying those masks writes each destination where the original held its source and nothing else |
| Replacing.TwoPhaseIsReplaced | pandas/core/series.py:2397-2404 | the clobber-safe branch is the dict replacement |
| Replacing.SequentialAt | pandas/core/series.py:2405-2407 | without clobbering, replacing item by item reads only the original value at every slot |
| Replacing.SequentialIsReplaced | pandas/core/series.py:2405-2407 | the simple branch is the dict replacement when no destination is a source |
| Replacing.SequentialWouldClobber | pandas/core/series.py:2397-2398 | why the check exists: item by item, `{1: 2, 2: 3}` turns 1 into 3 where the replacement gives 2 |
| Replacing.RepDict | pandas/core/series.py:2389-2408 | `_rep_dict` in either branch is the dict replacement |
| Replacing.DictSet | pandas/core/series.py:2421 | `d[k] = v`: k maps to v, every other key is unchanged, keys stay distinct |
| Replacing.ZipDict | pandas/core/series.py:2421 | `dict(zip(srcs, vs))`: exactly the listed sources are keys, each with the value of its last occurrence |
| Replacing.ReplaceValues | pandas/core/series.py:2410-2426 | two lists of different lengths raise ShapeMismatch; otherwise a buffer of the same length |
| Replacing.ReplaceFrame | pandas/core/series.py:2382-2426 | dict: the dict replacement; list with one value: `_rep_one`; two lists of equal length: each slot holding a source takes the value paired with its last occurrence; labels, name and kind kept |
| Renaming.RenameFunction | pandas/core/series.py:2965-2975 | a dict maps its keys and leaves other labels unchanged; a function is applied as is |
| Renaming.MapLabels | pandas/core/series.py:2788 | each label is replaced by its image, in order |
| Renaming.RenameFrame | pandas/core/series.py:2786-2790 | `rename` turns label i into the mapper's image of label i, and keeps values, name and kind |
| Renaming.RenameUnknownKeys | pandas/core/series.py:2967-2971 | a dict naming none of the labels leaves the Series unchanged |
| Renaming.RenameKeepsUnique | pandas/core/series.py:2763 | a one-to-one mapper keeps labels unique |
| Renaming.RenameThenGet | pandas/core/series.py:2786-2788 | with a one-to-one mapper, the new label answers what the old one did |
| SeriesClass.FillSide | pandas/core/series.py:1711-1714 | a present slot is kept, and the result is missing only where the slot was missing (the exclusive-or rule itself is `FillSidesApply`) |
| SeriesClass.FilledSide | pandas/core/series.py:1711-1714 | the fill rule applied slot by slot |
| SeriesClass.FillSidesApply | pandas/core/series.py:1705-1716 | filling both sides and applying the operator is the exclusive-or fill rule |
| SeriesClass.FillMissing | pandas/core/series.py:1705-1714 | the copied buffers, after the masked writes, are the filled sides |
| SeriesClass.CombineBuffer | pandas/core/series.py:1748-1752 | the loop raises iff an integer buffer would get NA; otherwise slot i is func of both `get`s at label i |
| SeriesClass.AssignAll | pandas/core/series.py:1819 | `self[:] = src` overwrites every slot with src |
| SeriesClass.FillSortedIdx | pandas/core/series.py:1948-1955 | the two slice writes produce `Place(good, bad, na_last)` |
| SeriesClass.Series.constructor | pandas/core/series.py:1087-1088 | a new Series over a fresh copy of the buffer, holding the given Frame |
| SeriesClass.Series.Copy | pandas/core/series.py:1079-1088 | a new Series, over a new buffer, equal to this one |
| SeriesClass.Series.PutMaskInPlace | pandas/core/series.py:1790 | the buffer becomes `PutMask` of its old contents |
| SeriesClass.Series.Binop | pandas/core/series.py:1673-1718 | a non-Series operand raises NotASeries; otherwise a new Series equal to `BinopFrame` |
| SeriesClass.Series.Combine | pandas/core/series.py:1729-1757 | fails iff `CombineFrame` fails, and then with UnrepresentableMissing; otherwise a new Series equal to it |
| SeriesClass.Series.Update | pandas/core/series.py:1779-1790 | in place, the Series becomes `UpdateFrame` of its old state |
| SeriesClass.Series.SetValues | pandas/core/series.py:693-695 | the buffer becomes `WriteAt` of its old contents, or is untouched with the error |
| SeriesClass.Series.SetItem | pandas/core/series.py:615-645 | target errors and refused values leave the buffer untouched; otherwise the targets are written |
| SeriesClass.Series.SetValue | pandas/core/series.py:853-863 | a present label is written in place at every position holding it (`SetValueFrame`) and the same object returned; an absent one gives a new longer Series and leaves this one untouched |
| SeriesClass.Series.WhereInPlace | pandas/core/series.py:578-598 | in place, the Series becomes `WhereFrame` of its old state, or is untouched with the error |
| SeriesClass.Series.Where | pandas/core/series.py:586 | on a copy: a new Series equal to `WhereFrame`, or its error |
| SeriesClass.Series.Mask | pandas/core/series.py:600-613 | a new Series equal to `MaskFrame`, or its error |
| SeriesClass.Series.FillNAInPlace | pandas/core/series.py:2321-2327 | in place, the Series becomes `FillNAFrame` of its old state |
| SeriesClass.Series.FillNA | pandas/core/series.py:2321-2327 | a new Series equal to `FillNAFrame`; this one is not touched |
| SeriesClass.Series.RepOneInPlace | pandas/core/series.py:2384-2387 | the buffer becomes `RepOne` of its old contents |
| SeriesClass.Series.RepDictInPlace | pandas/core/series.py:2389-2408 | the buffer becomes the dict replacement of its old contents |
| SeriesClass.Series.ReplaceInPlace | pandas/core/series.py:2382-2426 | in place, the Series becomes `ReplaceFrame` of its old state, or is untouched with the error |
| SeriesClass.Series.Replace | pandas/core/series.py:2382 | a new Series equal to `ReplaceFrame`, or its error |
| SeriesClass.Series.Order | pandas/core/series.py:1909-1958 | a new Series, over a new buffer, equal to `OrderFrame` |
| SeriesClass.Series.Sort | pandas/core/series.py:1808-1820 | in place, values and labels become those of `order(na_last=True)` |
| SeriesClass.Series.Shift | pandas/core/series.py:2617-2642 | a new Series equal to `ShiftFrame` |
| SeriesClass.Series.RenameInPlace | pandas/core/series.py:2786-2790 | in place, the labels become `RenameFrame`'s; values untouched |
| SeriesClass.Series.Rename | pandas/core/series.py:2786-2790 | a new Series equal to `RenameFrame` |

## Left out

- Floating point: values are integers or NA; float statistics, `cummax`/`cummin`, rounding and NaN arithmetic beyond propagation are not modelled.
- The label index (`join`, `get_indexer`, `union`, `_engine`, `insert`) is not part of this model; its results are inputs.
- Slices, `Ellipsis`, tuple keys and MultiIndex levels in `_get_with`/`_set_with`/`__setitem__` are not modelled.
- `get`/`get_value` on a non-unique label return the first match here; the engine's sub-Series result is not modelled.
- `take_1d` internals and the fill kernels (`pad_1d`, `backfill_1d`): method-based `fillna`/`replace` and `limit` are not modelled.
- Datetime values, offsets and `shift` with a frequency are not modelled.
- Object-dtype fallbacks (`vec_compare`, `vec_binop`, `_radd_compat`) and bitwise operators on integers are not modelled; boolean operators act on booleans only.
- I/O, presentation, pickling, construction dtype inference and the delegating methods (`append`, `value_counts`, `rank`, ...) are not modelled.
- SeriesClass.Series.Sort: the check that the Series is not a view of a larger array is not modelled.
- Sorting.ArgsortFrame: `argsort` sorts with the `kind` it is given, `'quicksort'` by default, which need not keep tied values in order; the model always uses the stable sort, so it fixes one order of ties that the source leaves open.
- Sorting.TakeArgsortIsOrder: holds for the stable sort the model uses; under the default quicksort, the values agree with `order()` but the labels of tied values need not.
- Labels.IsIntegerIndex: an empty index is taken to be integer-typed. That is right for the default index of an empty Series, but an empty index of strings reports 'empty' instead, and a label sequence cannot tell the two apart.
- Access.GetWith: on an empty index of strings, an all-integer key is read as labels and reindexed (giving NA), where the source takes positions and raises IndexError.
- Access.SetWithTargets: on an empty index of strings, an all-integer key gives KeyNotFound where the source raises IndexError.
- Access.SetItemTargets: the same empty-index case for a single integer key or a list key gives KeyNotFound where the source raises IndexError.
- Access.CheckAssigned: a sequence holding NA, written into an integer buffer, is refused with UnrepresentableMissing. `convert_scalar` checks only a scalar NaN, and numpy then stores an arbitrary integer; the model refuses so that an integer buffer never holds NA.
- Access.WriteAt: the same refusal of a sequence holding NA for an integer buffer.
- SeriesClass.Series.SetValues: the same refusal of a sequence holding NA for an integer buffer.
- SeriesClass.Series.SetItem: the same refusal of a sequence holding NA for an integer buffer.
- Combining.PutWhere: numpy's `putmask` stores an arbitrary integer when NA is put into an integer buffer. Here that case is an `UnrepresentableMissing` error, so an integer Series never holds NA.
- Combining.WhereFrame: the same refusal of NA put into an integer buffer through `putmask`.
- Replacing.ReplaceFrame: the same refusal of NA put into an integer buffer through `putmask`.
- SeriesClass.Series.Where: equals `WhereFrame`, so it carries the same refusal of NA put into an integer buffer.
- SeriesClass.Series.WhereInPlace: equals `WhereFrame` of the old state, so it carries the same refusal.
- SeriesClass.Series.ReplaceInPlace: the same refusal of NA put into an integer buffer through `putmask`.
- SeriesClass.Series.Replace: equals `ReplaceFrame`, so it carries the same refusal.
- Access.SetWithTargets: `_set_labels` raises ValueError for an absent label; here it is KeyNotFound.
- Replacing.RepDict: the source groups sources by destination before masking; the model masks per (source, destination) pair. With distinct sources the two give the same buffer, and both branches are proved equal to `Replaced`.
- Combining.CombineFrame: the scalar branch applies `func` slot by slot; a vectorised `func` that looks across slots is not modelled.
- Access.GetWith: a boolean key of another length is an error here, where numpy's behaviour depends on its version.
- Access.SetWithTargets: a boolean key of another length is ShapeMismatch here; older numpy reads a shorter boolean key as the positions where it holds, and that version-dependent behaviour is not modelled.
- Access.SetItemTargets: the same boolean key of another length, and a boolean indexer whose bits come out of another length, are ShapeMismatch here.
- Alignment.Compare: an operand that is neither of the caller's length nor one slot long is ShapeMismatch. For `==` and `!=`, numpy of that era may instead give a single False or True that the Series constructor spreads over the index. A one-slot caller against a longer operand is also ShapeMismatch, where numpy would broadcast the caller.
- Alignment.Logical: a boolean Series that is neither of the caller's length nor one slot long is ShapeMismatch; a one-slot caller against a longer Series is refused the same way, where numpy would broadcast the caller.
- Missing.CumulativeFrame: integer running sums and products do not wrap around.
- Alignment.Reindex: the `method`, `level`, `limit` and `copy` arguments are not modelled.
