# maze: heap, queue and maze-grid core in Dafny

This project models the three container and parsing components of the
`maze` C program, and proves properties of the model:

- **`HeapADT`** (`heap_adt.dfy`, from `HeapADT.c`) is a generic binary
  min-heap stored in an array. It has `num` elements in use and
  `capacity` slots. The client's comparison `compFun(lhs, rhs)` ("`lhs`
  may sit above `rhs`") becomes a total preorder `le` on the element type
  `T`, fixed when the heap is created.
  - Insertion doubles the storage when it is full, places the item after
    the last element and sifts it up.
  - Removal of the top moves the last element to the root and sifts it
    down, using `smallestIndex`.
  - The main theorem: `createHeap`, `insertHeapItem` and `removeTopHeap`
    keep min-heap order over the `num` slots in use. The insert and
    remove operations change the multiset of elements by exactly the item
    added or the top removed. As a consequence, draining a heap yields its
    items sorted.
- **`QueueADT`** (`queue_adt.dfy`, from `queueADT.c`) is a FIFO queue
  over a singly linked list of `Node` objects, with `front`, `back` and a
  count `num`.
  - The list is described by the ghost sequence of its nodes (`Spine`)
    and of its values (`Contents`).
  - Every operation keeps the links, the values and `num` consistent.
    `num` is the number of nodes reachable from `front`.
  - Values come out in the order they went in.
- **`Maze`** (`maze.dfy`, from `maze.c`) builds the grid of the maze from
  text lines. `add_row` infers a line's width as `len - len/2`. It rejects
  a row whose width differs from the rows already read, parses the digit
  at every even offset, and appends the row. `create_maze` starts from an
  empty grid and adds one row per line.

The C elements are `void *` pointers. `T` stands for them, so `==` on
`T` is pointer identity, as in the sift-up loop's
`data[index] != data[parent]` test.

## Model

| member | source | states |
|---|---|---|
| HeapADT.HeapOrderedByParent | HeapADT.c:149-157 | The child-indexed heap order the model keeps is equivalent to the min-heap order on parents, `le(data[(k-1)/2], data[k])` for every slot `0 < k < num`. |
| HeapADT.RootBeforeSlot | HeapADT.c:74-78 | In a heap-ordered sequence the root may sit above every slot (walking up the parent chain). |
| HeapADT.RootIsMinimum | HeapADT.c:74-78 | In a non-empty heap-ordered sequence the root is `le`-minimal among all elements. |
| HeapADT.AppendAtEnd | HeapADT.c:148 | Placing an item after a heap breaks heap order only between the new slot and its parent, and adds the item to the multiset. |
| HeapADT.SiftUpStep | HeapADT.c:151-157 | Swapping an element that may sit above its parent with that parent moves the single break in heap order up to the parent's slot. |
| HeapADT.SiftUpDone | HeapADT.c:151-152 | When the sift-up stops (at the root, at a pointer-identical parent, or at a parent the element may not sit above), the whole sequence is heap-ordered. |
| HeapADT.MoveLastToRoot | HeapADT.c:113-116 | Moving the last slot to the root and shrinking by one breaks heap order only below the root, and the multiset loses exactly one copy of the old top. |
| HeapADT.SiftDownStep | HeapADT.c:121-128 | Swapping the element with the child that may sit above it and its sibling moves the break in heap order down to that child's slot. |
| HeapADT.SiftDownDone | HeapADT.c:121 | When `smallestIndex` keeps the element in place, the whole sequence is heap-ordered. |
| HeapADT.Swap | HeapADT.c:123-125 | Exchanges two slots of the prefix in use; the slots beyond the prefix are unchanged, and so is the prefix's multiset. |
| HeapADT.Heap.constructor | HeapADT.c:31-50 | A new heap is empty (`num == 0`) and valid, with the requested capacity and comparison. |
| HeapADT.Heap.Size | HeapADT.c:67-69 | The size is the number of elements in the heap. |
| HeapADT.Heap.Top | HeapADT.c:74-78 | Needs a non-empty heap; returns the element at slot 0, which is `le`-minimal among all elements; changes nothing. |
| HeapADT.Heap.SmallestIndex | HeapADT.c:93-105 | Returns the index or one of its two children. It returns the index when there is no left child. A different index is in use and was chosen because the index's element may not sit above it. The chosen element may sit above the index and each existing child. |
| HeapADT.Heap.RemoveTop | HeapADT.c:111-132 | Needs a non-empty heap; returns the old top, which is `le`-minimal. `num` drops by one, the multiset loses exactly the returned top, heap order holds again, and the storage is unchanged. |
| HeapADT.Heap.SiftDown | HeapADT.c:118-129 | From order broken only below the root, the swap loop restores heap order without changing the multiset. |
| HeapADT.Heap.Insert | HeapADT.c:139-160 | `num` grows by one and the multiset gains exactly the item, with heap order kept. When the heap was full, the capacity doubles into new storage; otherwise the storage is unchanged. |
| HeapADT.Heap.Grow | HeapADT.c:141-147 | Replaces the storage with one of twice the capacity that holds the same elements in the same slots. |
| HeapADT.Heap.SiftUp | HeapADT.c:148-158 | Places the item in slot `num` and swaps it up. Heap order then holds over `num + 1` slots, whose multiset is the old one plus the item. |
| HeapADT.Heap.Dump | HeapADT.c:166-170 | Visits exactly the elements in use, in storage order. |
| HeapADT.FillHeap | HeapADT.c:139-160 | Inserting each item of a sequence into a heap of capacity 1 yields a valid heap holding exactly those items. |
| HeapADT.DrainStep | HeapADT.c:111-132 | Appending the removed top to a sorted output keeps it sorted and still below everything left in the heap. |
| HeapADT.DrainInOrder | HeapADT.c:111-160 | Items inserted in any order come out of repeated removals as a permutation of the input, sorted by `le`. |
| QueueADT.LinkedSuffixIsChain | queueADT.c:12-16 | In a sequence of nodes linked through `next` and ending in null, following `next` from any node visits exactly the rest of the sequence. |
| QueueADT.ChainUnique | queueADT.c:60-64 | The nodes reachable from a node are unique: two chains from the same node are equal. |
| QueueADT.Queue.constructor | queueADT.c:32-39 | A new queue is empty and valid, with `num == 0` and null `front` and `back`. |
| QueueADT.Queue.NumCountsReachable | queueADT.c:21 | In a valid queue, `num` is the length of the one chain of nodes reachable from `front`. |
| QueueADT.Queue.Size | queueADT.c:135-137 | The size is the number of values in the queue. |
| QueueADT.Queue.Empty | queueADT.c:147-149 | Returns 1 for an empty queue and 0 otherwise. |
| QueueADT.Queue.Peek | queueADT.c:122-125 | Returns None exactly when the queue is empty, and otherwise the front value; changes nothing. |
| QueueADT.Queue.Enqueue | queueADT.c:76-89 | The value is appended at the back, earlier values keep their order, `num` grows by one, and only new nodes join the footprint. |
| QueueADT.Queue.Dequeue | queueADT.c:100-111 | On an empty queue, returns None and changes nothing. Otherwise it returns the front value, removes exactly that value and decrements `num`. |
| QueueADT.Queue.Clear | queueADT.c:59-67 | Walking the chain from `front` to null leaves an empty valid queue with `num == 0` and null `front` and `back`. |
| QueueADT.FillQueue | queueADT.c:76-89 | Enqueueing each value of a sequence into a new queue yields a queue holding exactly that sequence. |
| QueueADT.EnqueueAllThenDrain | queueADT.h:37-55 | Values dequeued after being enqueued come out in enqueue order (FIFO). |
| Maze.DigitValue | maze.c:50 | The number a digit character reads as is between 0 and 9. |
| Maze.DigitChar | maze.c:50 | Every number from 0 to 9 has a digit character that reads back as it. |
| Maze.RowWidth | maze.c:39 | The inferred width is half the line's length rounded up. |
| Maze.ParsedRow | maze.c:48-51 | A row has exactly the inferred width of its line. |
| Maze.RowWidthIsDigitCount | maze.c:39 | For a well-formed line, the inferred width equals the number of digit cells in it. |
| Maze.RowText | maze.c:48-51 | A written-out row of `n > 0` digits is `2n - 1` characters long. |
| Maze.ParseRowText | maze.c:48-51 | Writing a row of digits as text and parsing it back gives the same row, with or without a trailing newline. |
| Maze.RowTextCells | maze.c:48-51 | A written-out row holds cell `k` at offset `2k` and blanks between cells. |
| Maze.Grid.constructor | maze.c:65-66 | A fresh maze has width and height 0 and no rows. |
| Maze.Grid.AddRow | maze.c:30-53 | The row is accepted exactly when the maze has no width yet or the line's width equals it. On acceptance, the parsed row is appended after the unchanged earlier rows, `height` grows by one and `width` becomes the line's width. On rejection, nothing changes. |
| Maze.CreateMaze | maze.c:61-76 | Succeeds exactly when every line has the first line's width. Then there is one row per line, each parsed from its line, and the grid is rectangular. |

## Left out

- Memory management is not modelled: `malloc`, `calloc`, `realloc` and `free`, and the asserts on allocation failure. Allocation is Dafny's `new`, which cannot fail. Freed nodes stay in the queue's ghost footprint.
- `realloc` in `insertHeapItem` sizes the new storage by `sizeof(struct Heap_S)` instead of by the element pointer. `add_row` computes its row-array size as `sizeof(int*) * height + 1`. Both are memory sizes; the model allocates the intended sizes.
- `removeTopHeap` clears the vacated slot to NULL. The slot lies beyond `num`, so the model leaves it as it was.
- HeapADT.Heap.constructor: requires `capacity >= 1`. A heap created with capacity 0 could never grow by doubling.
- HeapADT.Heap.constructor: the non-null asserts on `compFun` and `dumpEntry` are not modelled. `le` is a total function, and `dumpEntry` is not modelled.
- HeapADT.Heap.Dump: the printing through the client's `dumpEntry` callback is a foreign call and is not modelled. Only the storage-order visit is.
- `destroyHeap`, `queue_destroy` and `clean_maze` only release memory and are not modelled.
- QueueADT.Queue.Enqueue: the first node's `next` is modelled as null. In `queue_enqueue` the node put into an empty queue never has `next` set, so it holds whatever `malloc` returned.
- QueueADT.Queue.Peek: the NULL that `queue_peak` returns for an empty queue is modelled as `None`, kept apart from a stored value. In C a NULL value enqueued at the front also comes back as NULL, so a caller cannot tell it from an empty queue; the model can.
- QueueADT.Queue.Dequeue: the NULL that `queue_dequeue` returns for an empty queue is modelled as `None`, kept apart from a stored value, as for `Peek`: a stored NULL front value comes back as `Some` of that value.
- QueueADT.Queue.Dequeue: as in the C code, `back` is not reset when the last value leaves. The queue's invariant does not constrain `back` while the queue is empty.
- Maze.Grid.AddRow: requires a well-formed line: single-digit cells at even offsets and any single non-digit separator at odd ones (in the maze files a blank, or the final newline). General `strtol` parsing (signs, multi-digit numbers, other whitespace) is not modelled. It also requires a non-empty line, which the caller's `getline > 0` loop guarantees.
- Maze.CreateMaze: takes the lines `getline` would return as a sequence. File reading is I/O. The exit with failure status on a width mismatch is `ok == false`.
- `maze.h` says `create_maze` returns a null pointer for empty input. The code returns an empty maze instead, and the model follows the code.
- `solve_maze` is declared in `maze.h` but its implementation is not part of this model.
- `pretty_print_maze`, `print_horizontal_bound` and `mopsolver.c` (command-line handling and output formatting) are not modelled.
- C's unsigned `size_t` and `int` widths are not modelled: sizes are unbounded naturals. Overflow of `num` or of the doubled capacity is out of scope.
