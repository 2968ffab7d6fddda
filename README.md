# xhtml2epub: the structure-detection core of `Book`, in Dafny

xhtml2epub turns a single XHTML file into an EPUB e-book. Its class `Book`
(src/xhtml2epub/book.py) reads the parsed document and detects the book's
structure:

- the entity table: built-in entities overlaid by the document's own DTD
  entities;
- the metadata, which come from those DTD entities;
- the images, keyed `img.<basename>`. The first image is the cover, and
  missing `alt` texts get a default;
- the stylesheet links;
- the chapter tree. Every `div` with an `id` is a chapter, and nested divs are
  sub-chapters. Each chapter gets a title from its `title` attribute, its
  leading headings, or its id;
- when the book is written, a table of contents mirroring that tree, a spine
  of pages, and each page's XHTML with its entity references expanded.

This project models that core and proves what it promises. The model has
these parts:

- The tree is a datatype. A node is an element (tag, attribute map, text,
  children, tail) or an unexpanded entity reference (name, tail). Comments and
  processing instructions are elements whose tag matches nothing.
- Python exceptions are values of a `Result` type. `Xml.Error` lists the
  KeyErrors, the ValueErrors, the missing `body`, the missing internal DTD
  and the missing source directory.
- A parsed document is its root element and, when it has an internal DTD,
  the map of entities that DTD declares.
- The loops of the source are methods with loop invariants, proved against
  recursive specification functions:
  - the image scan works in place on an array of `img` attribute maps;
  - section removal, the heading loop and the chapter recursion;
  - the spine appends of the `Book` class.
- Properties relating several calls are lemmas.

Modules, one per file: `Wrappers` (Option/Result), `Xml` (tree and errors),
`Strings` (ASCII casing, `str.title`, `str.capitalize`, `str.join`), `Paths`
(`os.path` helpers and `_basename`), `Entities` (entity table, metadata,
`_text`), `Expansion` (`_element_xhtml`'s regular-expression pass), `Assets`
(images and stylesheets), `Chapters` (chapter detection and titles),
`Nesting` (the nesting example of the package documentation), `Toc` (table of
contents and spine) and `Books` (the `Book` class).

Where the code and its documentation disagree, the model follows the code:

- `div[@id]` also matches an empty `id` attribute.
- A chapter gets a page when `len(element)` is non-zero, that is when it has
  child nodes (comments included) left after its sub-chapters are detached. A
  div holding only text becomes a grouping section.
- A page's XHTML is the serialization of the element's children with their
  tails. The element's own leading text is not part of it.
- `source_dir` is assigned only when `source` is a non-empty string, so a
  relative path in a book without a source fails (AttributeError).
- `int(code, 16)` accepts an optional `0x` prefix, so `&#x0x41;` is a valid
  reference to "A".
- A document without an internal DTD is not a book without metadata: reading
  `docinfo.internalDTD.entities()` on it raises (AttributeError), so both
  `parse` and `__init__` fail on it.

## Model

| member | source | states |
|---|---|---|
| Entities.Merge | src/xhtml2epub/book.py:94-95 | the table has the names of both tables; a declared entity wins over a built-in of the same name |
| Entities.DeclaredEntityWins | src/xhtml2epub/book.py:94-95 | in extracted text a redeclared built-in takes the document's value, and an undeclared built-in still expands |
| Entities.Text | src/xhtml2epub/book.py:167-175 | extracting a subtree's text fails only with a KeyError naming an entity missing from the table |
| Entities.TextSeq | src/xhtml2epub/book.py:174-175 | the same for a list of children |
| Entities.MetadataOf | src/xhtml2epub/book.py:76-83 | title, author and uid are the declared values when the DTD declares them and none otherwise; language is the declared value, or "en" when undeclared |
| Entities.TextFailsIffUnknown | src/xhtml2epub/book.py:167-175 | extracting text fails exactly when the subtree references a name missing from the table, and the error names such a name |
| Entities.TextSeqFailsIffUnknown | src/xhtml2epub/book.py:174-175 | the same for a list of children |
| Entities.TextOnlyReadsReferencedNames | src/xhtml2epub/book.py:167-175 | two tables that agree on the names a subtree references give it the same text |
| Entities.TextSeqOnlyReadsReferencedNames | src/xhtml2epub/book.py:174-175 | the same for a list of children |
| Paths.RFind | src/xhtml2epub/book.py:126 | the index of the last occurrence of a character, or -1 when there is none |
| Paths.RFindIs | src/xhtml2epub/book.py:126 | an index carrying the character with none after it is the last occurrence, so the characterisation determines `rfind` |
| Paths.FileName | src/xhtml2epub/book.py:126 | `os.path.basename`: a slash-free suffix of the path |
| Paths.FileNameIsLastComponent | src/xhtml2epub/book.py:126 | the file name is the whole path or what follows a slash, so it is the last path component |
| Paths.Stem | src/xhtml2epub/book.py:126 | the root half of `os.path.splitext`: a prefix of the name |
| Paths.StemSplits | src/xhtml2epub/book.py:126 | stem and extension concatenate back to the name, and the extension is empty or one dot followed by no other dot |
| Paths.Basename | src/xhtml2epub/book.py:124-126 | `_basename` has no slash and is a prefix of the path's file name |
| Paths.FileNameAfterSlash | src/xhtml2epub/book.py:126 | the file name of "dir/name" is "name" |
| Paths.FileNameAfterPrefix | src/xhtml2epub/book.py:126 | a prefix that is empty or ends in a slash does not change the file name |
| Paths.BasenameOfJoined | src/xhtml2epub/book.py:124-126 | "dir/stem.ext" has basename "stem" |
| Paths.BasenameOfName | src/xhtml2epub/book.py:124-126 | a bare "stem.ext", without a directory, has basename "stem" |
| Paths.StemOfDotted | src/xhtml2epub/book.py:126 | `splitext` of "stem.ext" with a dot-free extension and a stem not made only of dots gives back "stem" |
| Paths.BasenameWithoutDot | src/xhtml2epub/book.py:124-126 | a file name without a dot is its own basename |
| Paths.BasenameOfBareName | src/xhtml2epub/book.py:124-126 | a bare name with no directory and no dot is its own basename |
| Paths.StemOfDotfile | src/xhtml2epub/book.py:126 | a name whose only dots lead it (".bashrc") is its own stem, with no extension |
| Paths.StripTrailingSlashes | src/xhtml2epub/book.py:56 | removes exactly the trailing run of slashes |
| Paths.Dirname | src/xhtml2epub/book.py:56 | `os.path.dirname` is a prefix of the path, and is empty exactly for a path without a slash |
| Paths.DirnameAtRoot | src/xhtml2epub/book.py:56 | the directory of "/name" is "/" |
| Paths.DirnameOfJoined | src/xhtml2epub/book.py:56 | the directory of "dir/name" is "dir" |
| Paths.IsAbs | src/xhtml2epub/book.py:230 | a path is absolute exactly when its directory part is a non-empty path starting with a slash |
| Paths.JoinPath | src/xhtml2epub/book.py:233 | `os.path.join` returns an absolute second part unchanged; otherwise the first part, then one slash exactly when the first part is non-empty and does not already end in one, then the second part |
| Paths.FileNameOfJoinPath | src/xhtml2epub/book.py:233 | joining a directory does not change the file name |
| Strings.Capitalize | src/xhtml2epub/book.py:118 | `str.capitalize`: same length, first character upper-cased, the rest lower-cased |
| Strings.CapitalizeIdempotent | src/xhtml2epub/book.py:118 | capitalizing twice is capitalizing once |
| Strings.CaseRoundTrip | src/xhtml2epub/book.py:118 | upper- and lower-casing a letter undo each other and are idempotent |
| Strings.Title | src/xhtml2epub/book.py:163 | `str.title` keeps the length and every character that is not a letter |
| Strings.TitleFromAt | src/xhtml2epub/book.py:163 | `str.title` upper-cases a letter that starts a run of letters, lower-cases the other letters, and keeps non-letters |
| Strings.TitleAt | src/xhtml2epub/book.py:163 | the same, stated position by position from the start of the string |
| Strings.TitleIdempotent | src/xhtml2epub/book.py:163 | title-casing twice is title-casing once |
| Strings.SeparatorsToSpaces | src/xhtml2epub/book.py:163 | `re.sub("[-_]", " ", id)`: same length, each `-` or `_` becomes a space, everything else is kept |
| Strings.Join | src/xhtml2epub/book.py:161 | `str.join` of no parts is empty; otherwise the result starts with the first part |
| Strings.JoinAppend | src/xhtml2epub/book.py:161 | joining one more part appends the separator and that part |
| Strings.JoinLength | src/xhtml2epub/book.py:161 | the joined length is the parts' total length plus one separator between each two parts |
| Expansion.Utf8 | src/xhtml2epub/book.py:288 | `chr(v).encode()` is one byte, the code point itself, exactly below 0x80; two, three or four bytes above, with lead byte 110xxxxx, 1110xxxx or 11110xxx for the three higher ranges; every later byte is a continuation byte 10xxxxxx |
| Expansion.Utf8RoundTrip | src/xhtml2epub/book.py:288 | decoding the encoding gives back the code point |
| Expansion.ParseInt | src/xhtml2epub/book.py:288 | `int(code, base)` fails with a ValueError naming the literal; in base 10 it succeeds exactly on a non-empty all-digit literal; in base 16 exactly on non-empty hexadecimal digits, alone or after one `0x` or `0X` |
| Expansion.ParseIntDecimalRoundTrip | src/xhtml2epub/book.py:288 | every decimal numeral, after any number of leading zeros, reads back as its value |
| Expansion.ParseIntHexRoundTrip | src/xhtml2epub/book.py:288 | the hexadecimal digits of a value, each letter in either case and after any number of leading zeros, read back as that value ("4A", "4a" and "004a" all as 74) |
| Expansion.ParseIntPrefixedHexRoundTrip | src/xhtml2epub/book.py:288 | the same numerals after `0x` or `0X` read back as that value too |
| Expansion.HexNumeralForm | src/xhtml2epub/book.py:288 | every hexadecimal numeral is leading zeros then the digits of its value in some letter case, so the two round trips cover every numeral `int(code, 16)` accepts |
| Expansion.ParseIntOfDigits | src/xhtml2epub/book.py:288 | a non-empty numeral of the base without prefix is read as the value of its digits |
| Expansion.ParseIntOfPrefixed | src/xhtml2epub/book.py:288 | after `0x` or `0X` a non-empty hexadecimal numeral is read as the value of its digits |
| Expansion.DigitValue | src/xhtml2epub/book.py:288 | a digit is worth less than 16; '0'..'9' are 0..9, and 'a'..'f' and 'A'..'F' alike are 10..15 |
| Expansion.DigitsValueIgnoresCase | src/xhtml2epub/book.py:288 | lower-casing the letters of a numeral keeps it a numeral of the base and keeps its value |
| Expansion.LeadingZerosValue | src/xhtml2epub/book.py:288 | leading zeros do not change a numeral's value |
| Expansion.HexDigitsOfValue | src/xhtml2epub/book.py:288 | a hexadecimal numeral without a leading zero, lower-cased, is the one written for its value |
| Expansion.EncodeString | src/xhtml2epub/book.py:292 | `str.encode()` gives one to four bytes per character, and ASCII text byte for byte |
| Expansion.EncodeStringAppend | src/xhtml2epub/book.py:292 | encoding distributes over concatenation |
| Expansion.AsStringRoundTrip | src/xhtml2epub/book.py:290-292 | decoding an ASCII name and encoding it again gives back its bytes |
| Expansion.MatchFrom | src/xhtml2epub/book.py:296-298 | after `&`, `&#` or `&#x`, a match is a non-empty run of alphanumerics closed by `;`; after that opening it spells the whole reference |
| Expansion.MatchAt | src/xhtml2epub/book.py:296-298 | a match at the input's start is a well-formed reference spelled by the matched bytes; only a leading `&` can match |
| Expansion.MatchSpelling | src/xhtml2epub/book.py:296-298 | the pattern recognises every canonical reference at the start of the input, whatever follows |
| Expansion.Replacement | src/xhtml2epub/book.py:285-294 | a named reference never fails: a known name gives its text encoded, an unknown one the matched bytes; a numeric one succeeds exactly when its literal parses to a Unicode scalar value and then gives that value's UTF-8 bytes; otherwise it fails with the literal's ValueError or with the invalid code point |
| Expansion.Expand | src/xhtml2epub/book.py:296-298 | the pass fails only with an invalid literal or an invalid code point |
| Expansion.ExpandPlainPrefix | src/xhtml2epub/book.py:296-298 | bytes before the first `&` are copied unchanged |
| Expansion.ExpandWithoutAmp | src/xhtml2epub/book.py:296-298 | input without `&` comes back unchanged |
| Expansion.ExpandReference | src/xhtml2epub/book.py:285-298 | a reference is replaced and the scan resumes right after it, so replacement text is never rescanned |
| Expansion.ExpandDecimalReference | src/xhtml2epub/book.py:285-298 | `&#N;`, N in decimal with any leading zeros, is replaced by the UTF-8 bytes of code point N, and the scan continues after it |
| Expansion.ExpandHexReference | src/xhtml2epub/book.py:285-298 | `&#xN;`, N in hexadecimal with letters in either case and any leading zeros (`&#xA0;`, `&#x00a0;`), is replaced by the UTF-8 bytes of code point N, and the scan continues after it |
| Expansion.ExpandNamedReference | src/xhtml2epub/book.py:285-298 | `&name;` for a name in the table is replaced by its text encoded, and the scan continues after it |
| Expansion.ExpandWithoutHashSucceeds | src/xhtml2epub/book.py:285-298 | input without `#` never fails, whatever the table: only numeric references raise |
| Expansion.UnknownNamesStayVerbatim | src/xhtml2epub/book.py:290-294 | with an empty table and no numeric references the output is the input |
| Expansion.SerializedChildren | src/xhtml2epub/book.py:283 | no children give no bytes, and one child gives exactly its serialization |
| Expansion.SerializedChildrenAppend | src/xhtml2epub/book.py:283 | the bytes of two runs of children are those of the first run then those of the second |
| Expansion.ElementXhtml | src/xhtml2epub/book.py:281-299 | the children's XHTML, expanded; fails only with an invalid literal or an invalid code point |
| Assets.Imgs | src/xhtml2epub/book.py:110 | an entity has no image; an `img` element's own map comes first |
| Assets.ImgsInDocumentOrder | src/xhtml2epub/book.py:110 | `iterfind(".//img")`: the maps of the `img` elements among all elements of the subtree, in document order |
| Assets.ImgsSeqInDocumentOrder | src/xhtml2epub/book.py:110 | the same for the children of the root, which `.//img` searches |
| Assets.SetImgs | src/xhtml2epub/book.py:117-118 | writing `img` maps keeps the node's kind, tag, text, tail and number of children; an `img` element takes the first map written, any other element keeps its own |
| Assets.SetImgsSeq | src/xhtml2epub/book.py:117-118 | the list of children keeps its length |
| Assets.ImgsOfSetImgs | src/xhtml2epub/book.py:110-118 | writing `img` attributes into the tree and reading them back gives what was written |
| Assets.ImgsSeqOfSetImgsSeq | src/xhtml2epub/book.py:110-118 | the same for a list of children |
| Assets.SetImgsUnchanged | src/xhtml2epub/book.py:110-118 | writing back the attributes a tree already has leaves it unchanged |
| Assets.SetImgsSkeleton | src/xhtml2epub/book.py:117-118 | writing `img` attributes changes no tag, text, tail, entity or child, and no attribute of any other element |
| Assets.ImageId | src/xhtml2epub/book.py:113 | an image id starts with "img." and has no slash |
| Assets.ImageIdOfPath | src/xhtml2epub/book.py:112-113 | "dir/stem.ext" and "stem.ext" both get the id "img.stem" |
| Assets.Table | src/xhtml2epub/book.py:110-116 | at most one entry per image, and no entry exactly when there is no image |
| Assets.CoverOf | src/xhtml2epub/book.py:119-120 | a cover exactly when the table is not empty, and then it is the first key |
| Assets.TableOfKeys | src/xhtml2epub/book.py:113-116 | the table's keys are exactly the ids seen |
| Assets.InsertKeepsFirstOccurrences | src/xhtml2epub/book.py:115-116 | one loop step keeps "each key maps to the src of its first occurrence, keys in order of first appearance" |
| Assets.TableOfFirstOccurrences | src/xhtml2epub/book.py:110-116 | the whole loop establishes that |
| Assets.TableIsFirstOccurrences | src/xhtml2epub/book.py:105-126 | keys are exactly `"img." + _basename(src)` over all images; each maps to the first src with that id; keys are in order of first appearance |
| Assets.TableKeysDistinct | src/xhtml2epub/book.py:115-116 | no key appears twice |
| Assets.DuplicateLeavesTable | src/xhtml2epub/book.py:115 | a later image with an id already seen leaves the table unchanged |
| Assets.CoverIsFirstImage | src/xhtml2epub/book.py:108-120 | the cover is the id of the first image, or none without images |
| Assets.AltDefault | src/xhtml2epub/book.py:115-118 | one image's attributes after the loop body: all kept, only `alt` can be added; a new id always ends with an `alt`, its capitalised basename when it had none; an id already seen leaves the map unchanged |
| Assets.WithAlts | src/xhtml2epub/book.py:110-118 | one attribute map per image, each keeping its `src` |
| Assets.DefaultAlts | src/xhtml2epub/book.py:115-118 | existing attributes are kept, only `alt` can be added, the first image of every id ends up with an `alt` (its capitalised basename when it had none), and later duplicates are untouched |
| Assets.WithAltsSnoc | src/xhtml2epub/book.py:107-118 | handling one more image appends that image's default to the ones before, which are unchanged |
| Assets.FindImages | src/xhtml2epub/book.py:105-122 | fails with a missing `src` exactly when some image lacks one; otherwise returns the first-occurrence table and its cover and leaves every attribute map as `WithAlts` says |
| Assets.Stylesheets | src/xhtml2epub/book.py:128-131 | every collected map has `rel="stylesheet"` |
| Assets.StylesheetsInDocumentOrder | src/xhtml2epub/book.py:128-131 | the collected maps are those of the stylesheet links in document order, duplicates kept |
| Assets.StylesheetId | src/xhtml2epub/book.py:215-217 | a sheet has an id exactly when it has an href; the id is the href's basename, without slash; a missing href is a KeyError |
| Assets.StylesheetIdOfPath | src/xhtml2epub/book.py:215-217 | a sheet linked as "dir/stem.css" or "stem.css" gets the id "stem" |
| Chapters.Sections | src/xhtml2epub/book.py:138 | `xpath("div[@id]")`: only section children are selected |
| Chapters.Remaining | src/xhtml2epub/book.py:139-140 | no section child remains |
| Chapters.SectionsAreChildren | src/xhtml2epub/book.py:138-140 | sections and remaining nodes are children of the element |
| Chapters.SectionsPartition | src/xhtml2epub/book.py:138-140 | sections and remaining nodes together are exactly the children, as a multiset |
| Chapters.SplitAppend | src/xhtml2epub/book.py:138-140 | the split commutes with concatenation, so both parts keep their relative order |
| Chapters.SectionsAppend | src/xhtml2epub/book.py:138-140 | the section children of two concatenated lists are those of the first followed by those of the second |
| Chapters.RemainingAppend | src/xhtml2epub/book.py:138-140 | likewise for the children that are not sections |
| Chapters.RemoveFirst | src/xhtml2epub/book.py:140 | `remove` of a present child shortens the list by one; of an absent one leaves it unchanged |
| Chapters.RemoveFirstMultiset | src/xhtml2epub/book.py:140 | one occurrence of the child is taken out and nothing else |
| Chapters.RemoveFirstAt | src/xhtml2epub/book.py:140 | the occurrence taken out is the first; the children before and after it stay, in order |
| Chapters.RemoveEach | src/xhtml2epub/book.py:139-140 | removing each of a list in turn takes out at most that many children |
| Chapters.RemoveEachMultiset | src/xhtml2epub/book.py:139-140 | one occurrence of each removed child is taken out, and nothing else |
| Chapters.RemovingSectionsLeavesRest | src/xhtml2epub/book.py:139-140 | removing the selected divs one by one leaves exactly the other children, in order |
| Chapters.DetachSections | src/xhtml2epub/book.py:138-140 | the removal loop yields the sections and the remaining children |
| Chapters.Detached | src/xhtml2epub/book.py:139-140 | the detached element keeps its tag and attributes and has no section child |
| Chapters.HeadingRunStops | src/xhtml2epub/book.py:153-158 | the heading loop reads the leading run of h1/h2/h3 children and stops at the first other child |
| Chapters.HeadingTexts | src/xhtml2epub/book.py:153-158 | reading the headings fails only with a KeyError naming an entity missing from the table |
| Chapters.TitlePriority | src/xhtml2epub/book.py:150-163 | a non-empty `title` attribute wins; else the leading headings' texts joined by ": "; else the id title-cased |
| Chapters.ChapterTitle | src/xhtml2epub/book.py:150-163 | a non-empty `title` attribute is the title; computing it fails only on an entity missing from the table |
| Chapters.ContentOf | src/xhtml2epub/book.py:148-165 | succeeds exactly when the title can be computed, and then holds the element's id, the element and that title |
| Chapters.HeadingTailInTitle | src/xhtml2epub/book.py:156-175 | the text trailing a heading is part of the title |
| Chapters.IdTitle | src/xhtml2epub/book.py:163 | the fallback title has the id's length; every `-` and `_` becomes a space and every other non-letter is kept |
| Chapters.IdTitleShape | src/xhtml2epub/book.py:163 | the fallback title has the id's length and is the id rewritten position by position |
| Chapters.IdTitleExample | src/xhtml2epub/book.py:163 | "chapter_one" gets the title "Chapter One" |
| Chapters.ExtractChapter | src/xhtml2epub/book.py:148-165 | the loop with `break` computes the content that `ContentOf` specifies |
| Chapters.Chapters | src/xhtml2epub/book.py:133-146 | a chapter has content exactly when its element is a div, and then that content has the div's id and the div with its sections detached; fails only on an entity missing from the table |
| Chapters.SectionTrees | src/xhtml2epub/book.py:142 | one sub-chapter per section child; fails only on an entity missing from the table |
| Chapters.SectionTreesOfSections | src/xhtml2epub/book.py:142 | only the section children matter to the sub-chapters |
| Chapters.SectionTreesOnePerSection | src/xhtml2epub/book.py:142 | each section child becomes exactly one sub-chapter, in source order |
| Chapters.ChapterChildrenAreSections | src/xhtml2epub/book.py:138-146 | a chapter has one child per section child; it has content exactly when it is a div, and that content is the detached div and its id |
| Chapters.ChapterTreeShape | src/xhtml2epub/book.py:133-146 | no chapter's content keeps a section child, every chapter below the root has content, and the root has content exactly when it is a div |
| Chapters.SectionTreesShape | src/xhtml2epub/book.py:142 | the same for the sub-chapters of a list of children |
| Chapters.ChapterIdsInDocumentOrder | src/xhtml2epub/book.py:133-146 | the pre-order of chapter ids is the document order of the section divs |
| Chapters.SectionTreesIds | src/xhtml2epub/book.py:142 | the same for a list of children |
| Chapters.FindChapters | src/xhtml2epub/book.py:133-146 | the recursive method with its removal loop computes the tree that `Chapters` specifies |
| Nesting.LeafChapter | src/xhtml2epub/__init__.py:34 | a div holding only a comment is a chapter without sub-chapters, titled from its id |
| Nesting.GroupChapter | src/xhtml2epub/__init__.py:35-39 | a part holding two chapter divs has two sub-chapters, with ids and titles in document order |
| Nesting.ThreeSections | src/xhtml2epub/__init__.py:30-48 | a body of three sections has exactly their three chapters, in order, and no content of its own |
| Nesting.NestedChapters | src/xhtml2epub/__init__.py:30-48 | the documented body gives three top-level chapters, the second with two sub-chapters, each titled from its id |
| Nesting.DocumentedExample | src/xhtml2epub/__init__.py:30-48 | the documented ids come out as chapter-1, part-1, chapter-2, chapter-3, chapter-4 |
| Nesting.WordNumberTitle | src/xhtml2epub/__init__.py:42-48 | an id "word-N" of a lower-case word and a digit gets the title "Word N" |
| Nesting.TitledNestedChapters | src/xhtml2epub/__init__.py:30-48 | the documented nesting shows each chapter under the title its id gives it |
| Nesting.DocumentedTitles | src/xhtml2epub/__init__.py:30-48 | the documented body shows as Chapter 1, Part 1 holding Chapter 2 and Chapter 3, then Chapter 4 |
| Toc.ItemOf | src/xhtml2epub/book.py:257-272 | a page exactly when the element has child nodes, with uid, title, file name "<id>.xhtml", the element's XHTML and the stylesheet links; otherwise a section with the title; fails only when the page's XHTML fails |
| Toc.TextOnlyChapterIsSection | src/xhtml2epub/book.py:258-272 | a div holding text but no child node becomes a section, not a page |
| Toc.Add | src/xhtml2epub/book.py:251-279 | the entry is a leaf exactly without sub-chapters, and otherwise has one child entry per sub-chapter; fails only with an invalid literal or code point |
| Toc.AddAll | src/xhtml2epub/book.py:238-243 | one entry per top-level chapter; fails only with an invalid literal or code point |
| Toc.NoChaptersNoToc | src/xhtml2epub/book.py:240-246 | no chapters give an empty toc and an empty spine |
| Toc.AddMirrors | src/xhtml2epub/book.py:251-279 | the entry mirrors the chapter: a leaf exactly without sub-chapters, one entry per sub-chapter in order, with matching items |
| Toc.AddAllMirrors | src/xhtml2epub/book.py:240-243 | one entry per top-level chapter, each mirroring it |
| Toc.SpineIsNavPages | src/xhtml2epub/book.py:258-279 | the spine is the pages of the table of contents read in pre-order |
| Toc.SpineIsNavPagesSeq | src/xhtml2epub/book.py:240-246 | the same for the top-level chapters |
| Toc.SpineFollowsChapters | src/xhtml2epub/book.py:258-279 | the spine's ids are the ids of the chapters that have a page, in pre-order |
| Toc.SpineFollowsChaptersSeq | src/xhtml2epub/book.py:240-246 | the same for the top-level chapters |
| Toc.AllPagesWhenNoneEmpty | src/xhtml2epub/book.py:258 | when every chapter has a page, the spine lists every chapter id |
| Toc.AddSucceedsIff | src/xhtml2epub/book.py:251-279 | adding a chapter fails exactly when one of its pages' XHTML fails |
| Toc.AddAllSucceedsIff | src/xhtml2epub/book.py:238-243 | the same for the top-level chapters |
| Books.RemoveAll | src/xhtml2epub/book.py:74 | `str.replace(pat, "")` never lengthens the string |
| Books.RemoveAllAbsent | src/xhtml2epub/book.py:74 | a string not containing the pattern is unchanged |
| Books.RemoveAllSkips | src/xhtml2epub/book.py:74 | characters before an occurrence are kept, that occurrence is deleted, and the scan resumes after it |
| Books.StripOtherNamespace | src/xhtml2epub/book.py:72-74 | a tag in another namespace, "{uri}local", keeps its namespace |
| Books.StripXhtmlTag | src/xhtml2epub/book.py:72-74 | "{http://www.w3.org/1999/xhtml}tag" becomes "tag", and a tag in no namespace is kept |
| Books.StripNamespaces | src/xhtml2epub/book.py:72-74 | namespace stripping keeps node kinds, attributes, text and tails; a tag loses its XHTML namespace occurrences and nothing else; every child is stripped in turn |
| Books.StripNamespacesUnchanged | src/xhtml2epub/book.py:72-74 | a tree with no namespaced tag is unchanged |
| Books.FindChild | src/xhtml2epub/book.py:100 | `find("body")`: the first child with that tag, or none |
| Books.FindChildOfSkeleton | src/xhtml2epub/book.py:97-100 | writing `alt` texts does not change which child is the body |
| Books.SectionsOfSkeleton | src/xhtml2epub/book.py:97-100 | writing `alt` texts does not change how many section children there are |
| Books.StructureOf | src/xhtml2epub/book.py:91-103 | reading fails only on a missing `src`, a missing body or an entity missing from the table; on success the entities are the built-ins overlaid by the declared ones, the images are the first-occurrence table of every `src`, and the cover is its first key |
| Books.ReadDocument | src/xhtml2epub/book.py:86-89 | a document without an internal DTD fails before anything is read; otherwise it is read with the entities that DTD declares |
| Books.StructureShape | src/xhtml2epub/book.py:91-103 | reading fails on a missing `src`, then on a missing body; on success there is one top-level chapter per section child of the body (none, and so the warning, exactly when it has none), each with content and with no section left in any content |
| Books.ReadStructure | src/xhtml2epub/book.py:91-103 | the walk through images, stylesheets and chapters computes what `ReadDocument` specifies; on success the entities are the built-ins overlaid by the declared ones, and every chapter has content |
| Books.SourceDir | src/xhtml2epub/book.py:55-56 | a source directory exists exactly when the source is a non-empty path |
| Books.Book.constructor | src/xhtml2epub/book.py:54-60 | stores the metadata and the source's directory |
| Books.Book.ParseContent | src/xhtml2epub/book.py:91-103 | succeeds exactly when `ReadDocument` does and then holds its result; fails with its error; warns exactly when no chapter was found |
| Books.Book.Install | src/xhtml2epub/book.py:97-103 | the book holds the structure read, and warns exactly when there is no chapter |
| Books.Book.EpubFilename | src/xhtml2epub/book.py:195-199 | "<author> - <title>.epub", with "Unknown Author"/"Unknown Title" for a missing or empty value, and no other character |
| Books.Book.ResolvePath | src/xhtml2epub/book.py:230-233 | an absolute path is used as is; fails exactly for a relative path without a source directory; with the empty directory a relative path is used as is; otherwise it is `os.path.join` of the directory and the path, with the path's own file name |
| Books.ResolveBesideSource | src/xhtml2epub/book.py:227-236 | a book read from "dir/name" finds the relative path "p" at "dir/p" |
| Books.ResolveBesideBareSource | src/xhtml2epub/book.py:227-236 | a book read from a bare "name" has the empty directory and finds a relative path as it stands |
| Books.Book.AddChapter | src/xhtml2epub/book.py:251-279 | returns the entry `Add` specifies and appends that chapter's pages to the spine, in pre-order |
| Books.Book.AddChildren | src/xhtml2epub/book.py:238-279 | adds each chapter in turn, appending their pages to the spine |
| Books.Book.AddChapters | src/xhtml2epub/book.py:238-246 | restarts the spine; the toc and the spine are those `AddAll` specifies |
| Books.Open | src/xhtml2epub/book.py:35-61 | a document that cannot be read gives its error and no book; one that can always gives a fresh book holding the metadata passed in and the structure read |
| Books.Parse | src/xhtml2epub/book.py:63-84 | no internal DTD is an error; otherwise the XHTML namespace is stripped, the book's title, author, uid and language ("en" by default) are the declared entities, and it holds what `StructureOf` finds in the stripped tree; a readable document always gives a book |

## Left out

- Parsing (`XHTMLParser`, `etree.parse`) and the DTD reader: the model starts from a tree and a map of declared entities.
- The lxml queries (`iterfind`, `xpath`, `find`) are replaced by recursive filters over the tree. Comments and processing instructions are elements whose tag matches nothing and has no `{`.
- `etree.tostring`, the serializer of one child node with its tail, is a function parameter. The serialized bytes are the input of the expansion pass.
- The built-in entity table `xhtml2epub.html.entities` is not part of this model. It is a parameter of every member that uses it.
- ebooklib is left out: `write`, the EPUB item objects, `set_cover`, `EpubNcx`/`EpubNav`, `write_epub`, and the setting of `book.toc`/`book.spine`. Pages, sections, entries and the spine are the model's own datatypes.
- `_add_images` and `_add_stylesheets` only build ebooklib items from the image table and the stylesheet list. Their id and path choices are modelled (`StylesheetId`, `ResolvePath`). The cover-versus-item choice and the reading of bytes are not.
- File reading in `_read_book_file` is left out. Only its path choice is modelled.
- The warning printed to stderr is the flag `Books.Book.warned`.
- Unicode: casing (`str.title`, `str.capitalize`) is modelled for ASCII letters only, other characters are unchanged. UTF-8 is modelled for `chr(v).encode()`. Decoding `code.decode()` of an ASCII-only match is the identity on bytes.
- `src/xhtml2epub/__main__.py`, the command-line front end, is not part of this model.
- Object identity is not modelled. A chapter's element, the book's `content` and the removed divs are values. The in-place `alt` writes and child removals are the tree rebuilt with those changes.
- FileName: the function's own contract gives a slash-free suffix; that the suffix is the whole last component is the lemma `Paths.FileNameIsLastComponent`, kept apart so that callers do not carry it.
- RemoveAll: the function's own contract is a length bound; which characters are removed is stated by `Books.RemoveAllSkips` and `Books.RemoveAllAbsent` together, and for tags by `Books.StripXhtmlTag` and `Books.StripOtherNamespace`.
- Paths: only POSIX `os.path` (`posixpath`) is modelled; the Windows rules of `ntpath` (backslashes, drive letters) are not.
- Books.Book.ParseContent: on failure the contract does not describe the fields already assigned, because the constructor then gives no book.
