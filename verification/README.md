# Company directory: a Dafny model

The program is an interactive tool that keeps an in-memory directory of the
people in a company, grouped by department. Each input line is parsed into an
operation: `add <name> to <department>`, `ret [department]` (also spelled
`retrieve`), `q`/`quit`, or, for anything else, `Help`. The directory maps
each department to the names filed under it. Adding a name re-sorts that
department's list. Listing the company gathers every department's names into
one sorted list.

The model has four modules:

- `Tokens` (tokens.dfy): the string operations the parser relies on.
  - `Split` is `str::split_whitespace`. It splits on Unicode's White_Space characters, the set `char::is_whitespace` tests.
  - `Lower` stands for `str::to_lowercase`.
  - `Unwords` joins words with single spaces. It is used to state properties about typed lines.
- `Ordering` (ordering.dfy): the order of Rust `String`s.
  - A `String` compares byte-wise on its UTF-8 encoding, and UTF-8 preserves code-point order. So `LessEq` is the lexicographic order on characters, and it is proved to be a total order.
  - `Sort` stands for `sort_unstable`. Its contract is "sorted rearrangement of the input".
  - `SortedUnique` proves that only one sorted rearrangement exists. So no sorting algorithm could give a different result.
- `Command` (command.dfy): the `Operation`, `Add` and `Retrieve` types and `ReadCommand`.
  - The Rust variants `Operation::Add` and `Operation::Retrieve` are named `AddPerson` and `RetrievePeople` here. This keeps the constructor names apart from the payload types `Add` and `Retrieve`.
- `Directory` (company.dfy): the `Company` class.
  - Its field `departments: map<string, seq<string>>` is the Rust `HashMap<String, Vec<String>>`.
  - A ghost field `History` records every `add` in order.
  - `Valid()` ties the map to that record. The keys are exactly the departments something was added to. Each list is sorted and holds exactly the names added to its department.
  - `Add` and `RetrieveCompany` are methods. `RetrieveCompany` has the source's nested loop: it takes the remaining keys in any order, pushes each department's names, then sorts.

A blank line is outside the parser's domain. `read_command` unwraps the first
word and panics when there is none, so `ReadCommand` requires at least one
word. `Tokens.BlankLine` shows that this is exactly "the line is not all
whitespace".

## Model

| member | source | states |
|---|---|---|
| `Tokens.IsWhitespace` | src/main.rs:26 | the separator test of `split_whitespace` (`char::is_whitespace`, Unicode's White_Space set); it includes space, tab, line feed, form feed and carriage return and excludes every printable ASCII character |
| `Tokens.Lower` | src/main.rs:27 | stands for `to_lowercase`, restricted to ASCII: the result has the input's length and contains no ASCII capital. Each capital becomes its lower-case letter and every other character is unchanged |
| `Tokens.LowerIdempotent` | src/main.rs:27 | lower-casing a lower-cased word changes nothing |
| `Tokens.LowerMatches` | src/main.rs:27 | a word lower-cases to a lower-case keyword exactly when it spells that keyword with each letter in either case, so keyword matching is case-insensitive |
| `Tokens.Word` | src/main.rs:26 | a word is the longest prefix without whitespace: it is a prefix of the input, holds no whitespace, and is followed by whitespace or the end |
| `Tokens.Split` | src/main.rs:26 | every word `split_whitespace` yields is non-empty and free of whitespace |
| `Tokens.WordExtend` | src/main.rs:26 | a word ends at the first whitespace whatever follows it |
| `Tokens.SplitUnwords` | src/main.rs:26 | splitting a line built from words by single spaces gives back exactly those words |
| `Tokens.BlankLine` | src/main.rs:26-27 | a line has no words (the case where `unwrap` panics) exactly when every character is whitespace |
| `Tokens.SplitTrailingWhitespace` | src/main.rs:26 | whitespace appended to a line adds no word |
| `Ordering.LessEqMeaning` | src/main.rs:70 | `LessEq` stands for the `Ord` of `String` that `sort_unstable` uses (also at src/main.rs:87). It holds exactly when the first string is a prefix of the second, or when the first string has the smaller character at some position where all earlier characters agree. It compares characters by code point, which orders strings the way Rust's byte-wise comparison of their UTF-8 encodings does |
| `Ordering.LessEqReflexive` | src/main.rs:70 | the string order is reflexive |
| `Ordering.LessEqTotal` | src/main.rs:70 | any two strings are comparable |
| `Ordering.LessEqAntisymmetric` | src/main.rs:70 | two strings each at or below the other are equal |
| `Ordering.LessEqTransitive` | src/main.rs:70 | the string order is transitive |
| `Ordering.BelowByMultiset` | src/main.rs:70 | a lower bound of a list bounds every list with a sub-multiset of its elements |
| `Ordering.Insert` | src/main.rs:69-70 | inserting into a sorted list keeps it sorted and adds exactly that one element |
| `Ordering.Sort` | src/main.rs:70 | the sort of a list is sorted and has the same elements with the same multiplicities |
| `Ordering.SortedUnique` | src/main.rs:87 | two sorted lists with the same multiset of elements are equal, so the sorted result does not depend on input order or sorting algorithm |
| `Ordering.HeadIsLeast` | src/main.rs:87 | the first element of a sorted list is at or below every element of any list with the same elements |
| `Command.ReadCommand` | src/main.rs:25-52 | parses a non-blank line; every name and department it returns is one of the line's words, taken verbatim, so it is non-empty and free of whitespace |
| `Command.Outcomes` | src/main.rs:27-51 | the result is `Add` iff the keyword lower-cases to `add` and there are at least four words; it is `Retrieve` iff the keyword is `ret`/`retrieve`; it is `Quit` iff the keyword is `q`/`quit`; it is `Help` iff the keyword is none of these or it is `add` with fewer than four words |
| `Command.ParseAdd` | src/main.rs:28-41 | `add` followed by name, any third word and department, plus any further words, yields `Add{name, department}`; the third word is discarded whatever it is, and extra words are ignored |
| `Command.ParseAddIncomplete` | src/main.rs:29-39 | `add` with no name, or with no department after the connector (`add Alice`, `add Alice to`), yields `Help` |
| `Command.ParseRetrieveDepartment` | src/main.rs:43-46 | `ret`/`retrieve` in any letter case, followed by a word, yields `Retrieve::Department` of that word with its case kept; extra words are ignored |
| `Command.ParseRetrieveCompany` | src/main.rs:43-48 | `ret`/`retrieve` alone yields `Retrieve::Company` |
| `Command.ParseOther` | src/main.rs:49-50 | `q`/`quit` yields `Quit` whatever follows; any other keyword yields `Help` |
| `Command.RenderRoundTrip` | src/main.rs:25-52 | writing an operation in the syntax of the help text (src/main.rs:125-127) and parsing it gives the operation back |
| `Command.ReadCommandIgnoresNewline` | src/main.rs:98-100 | the trailing newline `read_line` keeps does not change the parsed command |
| `Directory.NamesInEmpty` | src/main.rs:73-75 | a department has names exactly when something was added to it |
| `Directory.NamesInSplit` | src/main.rs:80-86 | names gathered over a set of departments plus one more department add up |
| `Directory.NamesInAll` | src/main.rs:80-87 | gathering over all departments that were added to yields every name ever added |
| `Directory.EveryoneEmpty` | src/main.rs:77-90 | nobody is in the company exactly when nothing was ever added |
| `Directory.EveryoneAfterAdd` | src/main.rs:67-71 | each `add` puts exactly one more occurrence of its name into the company, duplicates included |
| `Directory.Company.constructor` | src/main.rs:61-65 | a new directory has no departments and satisfies the invariant |
| `Directory.NamesInAppend` | src/main.rs:67-71 | one more `add` adds its name to its own department's names and to no other department's |
| `Directory.Company.Stored` | src/main.rs:68 | the list `entry(..).or_insert(Vec::new())` hands to `add`: the stored list, or a new empty one exactly when the department is unseen. Either way it is sorted and holds exactly the names added to that department so far |
| `Directory.Company.Add` | src/main.rs:67-71 | keeps the invariant. The department's list becomes sorted and equals, as a multiset, the old list (empty if the department was new) plus the name. The key set grows by at most that department. Every other department's list is unchanged |
| `Directory.Company.RetrieveDepartment` | src/main.rs:73-75 | `None` exactly when nothing was ever added to the department. Otherwise the stored list itself, unchanged: non-empty, sorted, and holding exactly the names added to that department |
| `Directory.Company.RetrieveCompany` | src/main.rs:77-90 | sorted, and as a multiset equal to the union of all department lists, which is every name ever added; empty exactly when nothing was added; the key order of the loop does not matter |
| `Directory.ExampleDepartment` | src/main.rs:67-75 | adding `Zed` then `Ann` to `Eng` lists `Eng` as `["Ann", "Zed"]`; an unseen department is absent |
| `Directory.ExampleCompany` | src/main.rs:77-90 | with `Zed` in `Eng` and `Ann` in `Ops`, the company listing is `["Ann", "Zed"]`: names from different departments are merged and sorted together |

## Left out

- The read-eval-print loop of `main` (src/main.rs:93-135). This covers reading stdin, printing names and the fixed messages ("There is no people in the department.", "There is no people in the company.", the help text, "Bye!"), and propagating a read error. It is I/O. The parser and the directory it drives are modelled.
- The blank-line panic at src/main.rs:27 is a precondition of `ReadCommand`, not modelled behaviour.
- Lower-casing is ASCII-only. Rust's `to_lowercase` also maps non-ASCII characters. The only one it maps onto an ASCII letter is U+212A KELVIN SIGN, which becomes `k`. U+0130 becomes two characters, `i` followed by U+0307. Neither gives a letter of `add`, `ret`, `retrieve`, `q` or `quit`, so the keyword dispatch is the same as with full Unicode lower-casing. The lower-cased keyword is only compared, never returned, and every other word is carried verbatim.
- `HashMap` hashing and its iteration order. The map is a Dafny `map`. `RetrieveCompany` may take the keys in any order, and its contract holds for every order.
- `sort_unstable` versus a stable sort. Equal strings cannot be told apart, so `Sort` is one sorted rearrangement, and `SortedUnique` shows that it is the only one.
- `retrieve_department` returns a reference into the map. The model returns the list as a value, so aliasing is not modelled.
- Strings are sequences of Unicode scalar values, not UTF-8 bytes. The order on them equals the byte-wise order of their UTF-8 encodings.
