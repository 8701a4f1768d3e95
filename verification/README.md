# Bookclub: a Dafny model of its pagination, search, upload and list logic

Bookclub is a small book-sharing site:

- a Fastify backend with `/books`, `/authors` and `/bookclub` routes over a relational store and an upload directory;
- a React frontend with a public e-book shelf, an author directory, a search modal, a header search, and two admin pages built on a paginated table.

This project models the logic around the store and network calls, and proves what that logic promises.

- **Pagination** (`Paging`, `Table`, `AdminPages`):
  - `Math.ceil(total / limit)` and the `parseInt(x) || default` query defaults;
  - the page slice, the bounds-checked page change and the compact page-button list;
  - the admin pages' page/limit state, including the step back after deleting the last row of a page.
- **Search and recommendation** (`Bookclub`):
  - the Fisher-Yates shuffle and the six recommended books;
  - query validation, type-based inclusion, the relevance sort and truncation;
  - the `where`/`orderBy` description of `/booksbyauthor`.
- **CRUD handlers** (`Store`, `BookRoutes`, `AuthorRoutes`):
  - query defaults, id validation and required fields;
  - the multipart loop that fills the upload slots;
  - the "only truthy fields" update patch;
  - which files are written and deleted.
- **Client pages**:
  - the add-book form's validators (`AddBookForm`);
  - stored-path URL resolution (`Urls`);
  - "load more" append versus replace (`Feed`, `Ebook`, `AuthorList`);
  - the order-preserving case-insensitive filters (`Header`, and `Ebook`'s filter, which
    the page defines but feeds only the empty term);
  - the search modal's state transitions (`BookSearch`);
  - the admin pages' `FormData`, traced through the create handlers (`AdminPages`).

How the system is represented:

- **The store.** The database and the upload directory form one value, `Store.Db`. Each handler is a method that takes the store and returns its reply together with the new store.
- **JavaScript values.** `parseInt` results are `Num` (an integer or NaN). `null`/`undefined` is `None`. JavaScript truthiness is spelled out as `StrTruthy`, `NumTruthy` and `OptNumTruthy`.
- **Page state.** React page state is a class whose methods update its fields.
- **Outside inputs.** A server response, a `confirm` answer and a `Date.now()` stamp are inputs of the method that consumes them.
- **Specification functions.** Each loop is proved against a function, and the lemmas are stated about that function: the multipart `for` loops against the folds `AbsorbAll` and `WriteAll`, the page-button pushes against `Run` and `PageWindow`, and the shuffle loop against the multiset of its input. The straight-line `FormData` builders are proved equal to `BookEntries` and `AuthorEntries`, and `Transmit` is the function giving the parts those entries become.

## Model

| member | source | states |
|---|---|---|
| Paging.CeilDiv | frontend/src/components/Tables/Table/Table.tsx:82 | The page count is the least `r` with `(r-1)*d < n <= r*d` for a positive page size. For a negative size (which `parseInt` lets through) it is at most 0. |
| Paging.NoPagesIffEmpty | frontend/src/components/Tables/Table/Table.tsx:82 | With a positive page size there are no pages exactly when there are no items. |
| Paging.IntOr | backend/src/routes/bookRoutes.js:10-11 | `parseInt(x) \|\| fallback` keeps a non-zero integer. NaN and 0 give the fallback, so the result is never 0 when the fallback is not. |
| Paging.ListParams | backend/src/routes/bookRoutes.js:10-12 | Page defaults to 1 and limit to the handler's default, neither can be 0, `skip = (page-1)*limit`, and skip is non-negative for positive page and limit. |
| Paging.Slice | frontend/src/components/Tables/Table/Table.tsx:85-90 | `slice(start, end)` clips both ends to the length. Entry `i` is `data[start+i]`, and a start inside the data before the end gives a non-empty result. |
| Paging.PageSlice | frontend/src/components/Tables/Table/Table.tsx:85-90 | Page `p` holds at most `n` rows, and its row `i` is `data[(p-1)*n + i]`. |
| Paging.PageSliceNonEmpty | frontend/src/components/Tables/Table/Table.tsx:82-90 | A page has rows exactly when its number is at most the page count. |
| Paging.ConcatPagesPrefix | backend/src/routes/bookRoutes.js:10-23 | Pages 1..k read one after the other are the first `k*limit` rows, clipped. |
| Paging.PagesCoverData | backend/src/routes/bookRoutes.js:10-23 | Reading pages 1..totalPages yields every row once, in order. |
| Table.TableState.constructor | frontend/src/components/Tables/Table/Table.tsx:74-75 | Internal state starts on page 1 with the default page size. |
| Table.TableState.ActualPerPage | frontend/src/components/Tables/Table/Table.tsx:79 | The page size in use is positive in both modes. |
| Table.TableState.TotalPages | frontend/src/components/Tables/Table/Table.tsx:78-82 | The ceiling of the total over the page size, in either mode; it is 0 iff there are no items. |
| Table.TableState.CurrentData | frontend/src/components/Tables/Table/Table.tsx:85-90 | External mode shows `data` unchanged. Internal mode shows exactly `data[(p-1)*n .. p*n)`, clipped. |
| Table.TableState.GoToPage | frontend/src/components/Tables/Table/Table.tsx:92-100 | A target outside `1..totalPages` changes nothing. Inside, the parent is notified (external mode with a callback) or the internal page becomes the target. |
| Table.TableState.ItemsPerPageChange | frontend/src/components/Tables/Table/Table.tsx:102-109 | The parent is notified, or the new size is taken and the page resets to 1. |
| Table.Run | frontend/src/components/Tables/Table/Table.tsx:115 | The run `lo..hi` has `hi-lo+1` buttons (none if empty), button `i` being `lo+i`. |
| Table.PushRun | frontend/src/components/Tables/Table/Table.tsx:119-124 | The push loop appends exactly the run `lo..hi`. |
| Table.GetPageNumbers | frontend/src/components/Tables/Table/Table.tsx:111-129 | The push sequence yields the page window: all pages up to 7, else first, optional "...", neighbours of the current page, optional "...", last. |
| Table.SmallWindowListsAll | frontend/src/components/Tables/Table/Table.tsx:114-115 | With at most 7 pages the list is exactly `1..totalPages`, with no "...". |
| Table.LargeWindowPieces | frontend/src/components/Tables/Table/Table.tsx:116-127 | A large window is five pieces, and the middle run holds 1 to 3 pages. |
| Table.LargeWindowBounds | frontend/src/components/Tables/Table/Table.tsx:116-127 | With more than 7 pages and a valid current page: 4 to 7 entries, starting with 1, ending with the last page, containing the current one. |
| Table.LargeWindowIncreasing | frontend/src/components/Tables/Table/Table.tsx:116-127 | The page numbers strictly increase, so none repeats. |
| Table.LargeWindowNoSilentGap | frontend/src/components/Tables/Table/Table.tsx:116-127 | Adjacent page buttons are consecutive pages; a page is skipped only where a "..." stands. |
| Table.LargeWindowEllipses | frontend/src/components/Tables/Table/Table.tsx:118-125 | A leading "..." appears iff `current > 3` and a trailing one iff `current < totalPages-2`. The middle run spans `max(2,c-1)..min(N-1,c+1)`. |
| Table.NavigationButtonsAgreeWithGoToPage | frontend/src/components/Tables/Table/Table.tsx:235-292 | With controls shown (`totalPages > 1`), first/prev are enabled iff the previous page exists and next/last iff the next one does. First and last are always valid targets. |
| Table.ShowControls | frontend/src/components/Tables/Table/Table.tsx:235 | Definition: the controls render only with pagination on and two pages or more. |
| Table.BackDisabled | frontend/src/components/Tables/Table/Table.tsx:256-263 | Definition: first and previous are disabled on page 1. |
| Table.ForwardDisabled | frontend/src/components/Tables/Table/Table.tsx:285-292 | Definition: next and last are disabled on the last page. |
| Bookclub.ShuffleArray | backend/src/routes/bookclub.js:51-58 | For every choice of `j` in `0..i`, the shuffle returns a permutation of its input with the same length. |
| Bookclub.WithCover | backend/src/routes/bookclub.js:64-78 | The fetched set holds exactly the books with a cover, none more often than in the table. |
| Bookclub.Recommended | backend/src/routes/bookclub.js:61-99 | At most 6 books, `min(6, #with cover)`, all with a cover and from the table, as a sub-multiset of the fetched books. |
| Bookclub.RecommendedHasNoRepeats | backend/src/routes/bookclub.js:81-84 | When table ids are distinct, no book is recommended twice. |
| Bookclub.BookResult | backend/src/routes/bookclub.js:136-145 | A book becomes a "book" result with its id and title. |
| Bookclub.AuthorResult | backend/src/routes/bookclub.js:168-176 | An author becomes an "author" result with its name as title and author. |
| Bookclub.Compare | backend/src/routes/bookclub.js:181-187 | The comparator is negative iff only the first title matches, and positive iff only the second does. |
| Bookclub.RelevanceSort | backend/src/routes/bookclub.js:181-187 | The sorted list is a permutation of the merged list. |
| Bookclub.RelevanceSortOrdered | backend/src/routes/bookclub.js:181-187 | Every title match precedes every non-match. |
| Bookclub.RelevanceSortStable | backend/src/routes/bookclub.js:181-187 | The matches, and the non-matches, each keep their original order. |
| Bookclub.MapBooks | backend/src/routes/bookclub.js:136-145 | Maps each book, in order. |
| Bookclub.MapAuthors | backend/src/routes/bookclub.js:168-176 | Maps each author, in order. |
| Bookclub.Take | backend/src/routes/bookclub.js:123 | `take: limit` keeps the first `min(limit, n)` matches. |
| Bookclub.Search | backend/src/routes/bookclub.js:102-203 | A missing query, or one whose JavaScript length is under 2, gets 400 with its message, and only such a query does. Otherwise `count` is the merged length before truncation and `data` is the sorted, truncated list; `type` defaults to "all" and `limit` to 10. |
| Bookclub.ValidQuery | backend/src/routes/bookclub.js:106 | Definition: the query is present and its JavaScript length (UTF-16 code units) is at least 2; `Search` answers 400 exactly when it fails. |
| Bookclub.MergedFromRequestedKinds | backend/src/routes/bookclub.js:115-178 | Books come only for "all"/"book" and authors only for "all"/"author", each from the store's matches. |
| Bookclub.MergedCount | backend/src/routes/bookclub.js:115-178 | At most `limit` of each kind are merged, and any other type yields an empty list. |
| Bookclub.SearchPageShape | backend/src/routes/bookclub.js:189-195 | `data` has at most `limit` entries, each from the merged list, with title matches first. |
| Bookclub.BuildBooksQuery | backend/src/routes/bookclub.js:206-249 | Page and limit default to 1 and 10, with `skip = (page-1)*limit`. Search, author and year filters are present only when set (author and year also not "all"). Sort defaults to "newest" and selects its order. |
| Bookclub.OrderForCases | backend/src/routes/bookclub.js:236-249 | "oldest", "title_asc" and "title_desc" select their orders; every other value means newest first. |
| Bookclub.OrderFor | backend/src/routes/bookclub.js:236-249 | Definition: the order a `sort` value selects (cases in `Bookclub.OrderForCases`). |
| Bookclub.BooksByAuthorTotalPages | backend/src/routes/bookclub.js:270 | `totalPages` is the ceiling of the count over the limit, and 0 iff there are no matches. |
| Store.RemoveIfSet | backend/src/routes/bookRoutes.js:226-240 | A set path is removed from the upload directory; an unset one changes nothing. |
| Store.StoredPath | backend/src/routes/bookRoutes.js:79-89 | The stored path starts with the upload directory and ends with "-" and the original name. |
| Store.StoredPathInjective | backend/src/routes/bookRoutes.js:79 | Two uploads share a path only when they share the stamp and the name. |
| Store.BookAndAuthorUploadsDisjoint | backend/src/routes/authorRoutes.js:79-85 | A book upload and an author image never share a stored path. |
| BookRoutes.ListBooks | backend/src/routes/bookRoutes.js:8-29 | Page and limit default to 1 and 10 and `totalBooks` is the row count. `totalPages` is the ceiling, and `data` is page `page` in id order. |
| BookRoutes.ListPagesCoverTable | backend/src/routes/bookRoutes.js:10-25 | Reading the list page by page returns every book once, in id order. |
| BookRoutes.GetBook | backend/src/routes/bookRoutes.js:45-59 | On a store whose books all name an existing author: a non-numeric id gets 400 "Invalid book ID" and only it does. An unknown id, and only it, gets 404 "Book not found". Otherwise the stored row is returned with its author's name. |
| BookRoutes.AsNum | backend/src/routes/bookRoutes.js:102-107 | A JSON number is kept as a number, and a missing one stays missing. |
| BookRoutes.Absorb | backend/src/routes/bookRoutes.js:73-99 | A "pdf" file sets only `pdf`, a "coverImage" file only `coverImage`, any other file neither; a text part sets only its own field. |
| BookRoutes.ReadParts | backend/src/routes/bookRoutes.js:71-100 | The loop's locals and written files equal the fold of `Absorb` and of the file writes over the parts. |
| BookRoutes.FileSlotUntouched | backend/src/routes/bookRoutes.js:86-90 | A file slot no part is sent for keeps its starting value. |
| BookRoutes.FileSlotLastWins | backend/src/routes/bookRoutes.js:86-90 | A file slot holds `/uploads/books/<stamp>-<name>` of the last file sent under it. |
| BookRoutes.TextSlotUntouched | backend/src/routes/bookRoutes.js:93-94 | An unsent title or description keeps its start value. |
| BookRoutes.TextSlotLastWins | backend/src/routes/bookRoutes.js:93-94 | The title and the description are the last value sent. |
| BookRoutes.NumberSlotUntouched | backend/src/routes/bookRoutes.js:95-98 | An unsent year or author id keeps its start value. |
| BookRoutes.NumberSlotLastWins | backend/src/routes/bookRoutes.js:95-98 | The year and the author id are the `parseInt` of the last value sent. |
| BookRoutes.CreateWritesUploads | backend/src/routes/bookRoutes.js:73-83 | Create writes every uploaded file and deletes none. |
| BookRoutes.UpdateReplacesOnlyItsSlots | backend/src/routes/bookRoutes.js:149-179 | Update writes every upload and deletes exactly the old files of the slots that got a new upload. A new pdf never deletes the cover, nor a new cover the pdf. |
| BookRoutes.CreateBook | backend/src/routes/bookRoutes.js:62-131 | Falsy title or author id gets 400 "Title and authorId required", and only that does. A missing author or unparsable year gets 500. Otherwise 201 with the new row under the next id. Uploads stay written in every case, and the store stays valid. |
| BookRoutes.PatchOf | backend/src/routes/bookRoutes.js:194-200 | The patch carries a field iff its value is truthy, and then carries that value. |
| BookRoutes.BuildPatch | backend/src/routes/bookRoutes.js:194-200 | The conditional assignments build exactly that patch. |
| BookRoutes.ApplyPatch | backend/src/routes/bookRoutes.js:202-206 | The update keeps the row's id. |
| BookRoutes.PatchKeepsFalsyFields | backend/src/routes/bookRoutes.js:194-206 | A field left absent, empty, 0 or NaN keeps its stored value; a truthy one replaces it. |
| BookRoutes.PatchIdempotent | backend/src/routes/bookRoutes.js:194-206 | Applying a patch twice equals applying it once, and an empty patch changes nothing. |
| BookRoutes.UpdateBook | backend/src/routes/bookRoutes.js:134-212 | Non-numeric id gives 400 and unknown id gives 404 "Book not found", both with the store unchanged. Otherwise the patched row is stored and returned, or 404 "Error: " if the new author is missing. File writes and replacements happen in both cases. |
| BookRoutes.RefusedUpdateLosesOldPdf | backend/src/routes/bookRoutes.js:161-168 | A multipart update that is then refused has already deleted the old pdf the row still names. |
| BookRoutes.DeleteBook | backend/src/routes/bookRoutes.js:215-249 | Non-numeric id gives 400 and unknown id gives 404, both with the store unchanged. Otherwise the set pdf and cover files and then the row are removed, with reply "Book deleted successfully". |
| AuthorRoutes.ListAuthors | backend/src/routes/authorRoutes.js:7-37 | Page defaults to 1 and limit to 1, not 10, so by default `totalPages` is the author count. `data` is page `page` in id order. |
| AuthorRoutes.DefaultListShowsOneAuthor | backend/src/routes/authorRoutes.js:10-22 | Without a limit, page `p` shows exactly the `p`-th author. |
| AuthorRoutes.GetAuthor | backend/src/routes/authorRoutes.js:50-62 | A non-numeric id gets 400 "Invalid author ID". An unknown id gets 404 "Author not found". Otherwise the stored author is returned. |
| AuthorRoutes.Absorb | backend/src/routes/authorRoutes.js:72-91 | Any file part, whatever its field, sets the image to `/uploads/<stamp>-<name>`; text parts leave the image alone. |
| AuthorRoutes.ReadParts | backend/src/routes/authorRoutes.js:72-91 | The loop's locals equal the fold of `Absorb`, and every uploaded file is written. |
| AuthorRoutes.NoFileNoImage | backend/src/routes/authorRoutes.js:69 | The image stays null when no file is sent. |
| AuthorRoutes.LastFileIsImage | backend/src/routes/authorRoutes.js:85 | The image is the path of the last file sent. |
| AuthorRoutes.UnsentTextUntouched | backend/src/routes/authorRoutes.js:67-68 | A name or bio not sent stays "". |
| AuthorRoutes.LastTextWins | backend/src/routes/authorRoutes.js:88-89 | The name and the bio are the last value sent under those names. |
| AuthorRoutes.CreateAuthor | backend/src/routes/authorRoutes.js:65-105 | 201 with the new author (name, bio, image read from the parts) under the next id, with the uploads written. A non-multipart request gets 500. |
| AuthorRoutes.Updated | backend/src/routes/authorRoutes.js:139-146 | Name and bio are always overwritten; the image only when a file was uploaded. |
| AuthorRoutes.ImageSetMeansTruthy | backend/src/routes/authorRoutes.js:116-131 | The image local is null or a non-empty stored path, so `imagePath && ...` tests whether a file was sent. |
| AuthorRoutes.UpdateAuthor | backend/src/routes/authorRoutes.js:108-154 | Non-numeric id gives 400. An unknown id or a non-multipart request gives 404 "Author not found or error: ". Otherwise the updated author is stored and returned, and uploads are written either way. |
| AuthorRoutes.UpdateWithoutFileKeepsImage | backend/src/routes/authorRoutes.js:139-146 | An update without a file keeps the image, and one without a name blanks the name. |
| AuthorRoutes.DeleteAuthor | backend/src/routes/authorRoutes.js:157-168 | Non-numeric id gives 400. An unknown author, or one books still refer to, gives 404 "Author not found" with the store unchanged. Otherwise it is removed with "Author deleted". |
| AddBookForm.TitleRule | frontend/src/forms/AddBookForm.tsx:77-83 | Passes iff the JavaScript length is at least 2, so one astral character passes; empty gives "Title is required". |
| AddBookForm.DescriptionRule | frontend/src/forms/AddBookForm.tsx:103-109 | Passes iff the JavaScript length is at least 10; empty gives "Description is required". |
| AddBookForm.YearRule | frontend/src/forms/AddBookForm.tsx:129-139 | Passes iff absent or in `1000..currentYear`. |
| AddBookForm.AuthorRule | frontend/src/forms/AddBookForm.tsx:160-163 | Passes iff an author is selected. |
| AddBookForm.IsImage | frontend/src/forms/AddBookForm.tsx:202-206 | Passes iff there is no file or its type starts with "image/". |
| AddBookForm.ImageSize | frontend/src/forms/AddBookForm.tsx:207-212 | Passes iff there is no file or its size is at most 5 MiB. |
| AddBookForm.IsPdf | frontend/src/forms/AddBookForm.tsx:247-253 | Passes iff there is no file, or its type is "application/pdf", or its lower-cased name ends in ".pdf". |
| AddBookForm.PdfSize | frontend/src/forms/AddBookForm.tsx:254-259 | Passes iff there is no file or its size is at most 10 MiB. |
| AddBookForm.CoverRule | frontend/src/forms/AddBookForm.tsx:199-213 | Passes iff a file is picked and both validators pass. |
| AddBookForm.PdfRule | frontend/src/forms/AddBookForm.tsx:244-260 | Passes iff a file is picked and both validators pass. |
| AddBookForm.EmptyFileListPassesValidators | frontend/src/forms/AddBookForm.tsx:199-260 | Both pairs of validators pass an empty list; only `required` refuses it. |
| AddBookForm.Submit | frontend/src/forms/AddBookForm.tsx:55-59 | The data is forwarded iff every field is acceptable, and then the form is reset; otherwise nothing is sent and the inputs stay. |
| AddBookForm.UpperCasePdfNameAccepted | frontend/src/forms/AddBookForm.tsx:250-252 | "BOOK.PDF" with a generic type passes the PDF check. |
| Urls.Resolve | frontend/src/pages/Ebook/Ebook.tsx:79-83 | A path starting with "http" is unchanged; anything else gets the API host in front. The result always starts with "http". |
| Urls.ResolveIdempotent | frontend/src/pages/Ebook/Ebook.tsx:79-83 | Resolving twice equals resolving once. |
| Urls.ImageUrl | frontend/src/pages/Ebook/Ebook.tsx:74-84 | An empty or missing path gives the placeholder; otherwise the resolved path. |
| Urls.ImageUrlAbsolute | frontend/src/pages/Ebook/Ebook.tsx:74-84 | Every image URL shown, placeholder or not, starts with "http". |
| Urls.ImageUrlOrNull | frontend/src/features/Search/BookSearch/BookSearch.tsx:107-111 | No picture iff the path is empty or missing; otherwise the resolved path. |
| Urls.ImageVariantsAgree | frontend/src/features/Search/BookSearch/BookSearch.tsx:107-111 | Where both variants show a picture, it is the same URL. |
| Values.Utf16Length | backend/src/routes/bookclub.js:106 | JavaScript's `length`: 0 only for the empty string, between the character count and twice it. |
| Values.Utf16LengthOfBmp | backend/src/routes/bookclub.js:106 | On text without astral characters the JavaScript length is the character count. |
| Values.Utf16LengthOfAstral | backend/src/routes/bookclub.js:106 | A single astral character has JavaScript length 2. |
| Feed.AccumulateKeepsShown | frontend/src/pages/Ebook/Ebook.tsx:45-49 | Load more keeps the shown list as a prefix followed by exactly the new page; a reload shows only the new page. |
| Feed.Accumulate | frontend/src/pages/Ebook/Ebook.tsx:45-49 | Definition: the shown list followed by the page on load more, the page alone otherwise (its properties are in `Feed.AccumulateKeepsShown`). |
| Feed.HasMore | frontend/src/pages/Ebook/Ebook.tsx:51 | Definition: more can be loaded while the answered page is below `totalPages`; the AuthorList page uses the same rule (AuthorList.tsx:65). |
| Feed.HasMoreIffNextPageHasRows | frontend/src/pages/Ebook/Ebook.tsx:51 | When the list endpoint answers page `p` with the ceiling of its count as `totalPages` (bookRoutes.js:22-23), the client offers more exactly when page `p+1` has rows. |
| Ebook.BooksRequest | frontend/src/pages/Ebook/Ebook.tsx:39-40 | The request is `/books?page=<n>&limit=10` on the API host. |
| Ebook.BooksRequestInjective | frontend/src/pages/Ebook/Ebook.tsx:39-40 | Different pages give different requests. |
| Ebook.EbookView.constructor | frontend/src/pages/Ebook/Ebook.tsx:20-27 | The shelf starts empty and loading, on page 1, with more to load. |
| Ebook.EbookView.FetchBooks | frontend/src/pages/Ebook/Ebook.tsx:29-62 | An array page is appended (load more) or replaces the list, and `hasMore` is `page < totalPages`. Other bodies set "Invalid data format received", and failures set the load error; both keep the list. Spinners end off, and the page number is untouched. |
| Ebook.EbookView.Reload | frontend/src/pages/Ebook/Ebook.tsx:64-66 | The first load and Retry request page 1 and replace the list. |
| Ebook.EbookView.HandleLoadMore | frontend/src/pages/Ebook/Ebook.tsx:68-72 | The page advances to `page+1` and that page is requested and appended, whether or not the request succeeds. |
| Ebook.EbookView.SetSearchTerm | frontend/src/pages/Ebook/Ebook.tsx:103-106 | Setting the term changes the term and nothing else; no rendered input calls this setter. |
| Ebook.EbookView.FetchBooksInStep | frontend/src/pages/Ebook/Ebook.tsx:29-62 | Corrected bookkeeping: `page` becomes the requested page only once it is accepted. |
| Ebook.EbookView.HandleLoadMoreInStep | frontend/src/pages/Ebook/Ebook.tsx:68-72 | Corrected load more: a shelf showing pages 1..page of the table still shows pages 1..page afterwards, whether the request succeeds or fails. |
| Ebook.EbookView.ReloadInStep | frontend/src/pages/Ebook/Ebook.tsx:64-66 | An accepted first page puts the shelf in step with the table. |
| Ebook.FailedLoadMoreSkipsAPage | frontend/src/pages/Ebook/Ebook.tsx:68-72 | As written, after a failed load-more the next one asks for page 3 and the shelf shows pages 1 and 3. |
| Ebook.FailedLoadMoreInStep | frontend/src/pages/Ebook/Ebook.tsx:68-72 | With the corrected bookkeeping, the same clicks ask for page 2 and show pages 1 and 2. |
| Ebook.FilteredBooksExact | frontend/src/pages/Ebook/Ebook.tsx:103-106 | The filter keeps the shown order and holds exactly the books whose title or author name contains the term, ignoring case. |
| Ebook.FilteredBooks | frontend/src/pages/Ebook/Ebook.tsx:103-106 | Definition: keep the books whose title or author name contains the term, ignoring case (its properties are in `Ebook.FilteredBooksExact`). |
| Ebook.EmptyTermShowsAll | frontend/src/pages/Ebook/Ebook.tsx:103-106 | An empty term shows every book. |
| Ebook.ViewTarget | frontend/src/pages/Ebook/Ebook.tsx:86-91 | A book without a pdf opens nothing; otherwise the opened URL is exactly `Resolve` of its pdf path, which starts with "http". |
| Ebook.Download | frontend/src/pages/Ebook/Ebook.tsx:93-101 | Download only with a pdf; the link's target is `Resolve` of the pdf path and the saved name is exactly the title followed by ".pdf". |
| Ebook.ViewAndDownloadAgree | frontend/src/pages/Ebook/Ebook.tsx:86-101 | View and download act on the same books and the same URL. |
| AuthorList.RequestParams | frontend/src/pages/AuthorList/AuthorList.tsx:42-53 | The query is page, limit 12 and the given filters, followed by the search term and the sort when non-empty. |
| AuthorList.LoadMoreFilters | frontend/src/pages/AuthorList/AuthorList.tsx:103-106 | The load-more filters hold at most sort and search, each only when non-empty. |
| AuthorList.LoadMoreRequestValues | frontend/src/pages/AuthorList/AuthorList.tsx:100-108 | A load-more request names page and limit once, and search and sort twice each, or not at all when they are empty. |
| AuthorList.AuthorListView.constructor | frontend/src/pages/AuthorList/AuthorList.tsx:18-28 | Starts empty, loading, on page 1, with sort "newest" and no term. |
| AuthorList.AuthorListView.FetchAuthors | frontend/src/pages/AuthorList/AuthorList.tsx:31-76 | Sends the query built from the held term and sort. It appends or replaces an array page with `hasMore = page < totalPages`. Other bodies and failures set their message and keep the list. |
| AuthorList.AuthorListView.SetSearchTerm | frontend/src/pages/AuthorList/AuthorList.tsx:83-92 | Setting the term changes the term and nothing else (list, page, sort, `hasMore`, error and both spinners stay); no rendered input calls this setter. |
| AuthorList.AuthorListView.SearchSettled | frontend/src/pages/AuthorList/AuthorList.tsx:83-92 | A settled term reloads page 1 iff it is empty or its JavaScript length is at least 2 (on the page only the empty term at mount reaches it). The reload replaces the list or keeps it with its error, and sets `hasMore` and the spinners. A term that does not trigger changes nothing. |
| AuthorList.AuthorListView.SetSort | frontend/src/pages/AuthorList/AuthorList.tsx:95-98 | Setting a sort reloads page 1 with that order (on the page only "newest" at mount reaches it): the answer replaces the list and sets `hasMore`, or the list and `hasMore` stay beside the error. |
| AuthorList.AuthorListView.HandleLoadMore | frontend/src/pages/AuthorList/AuthorList.tsx:100-109 | Stores and requests `page+1`, with its filters. The answer is appended and sets `hasMore`, or the list stays and an error is shown. |
| AuthorList.AuthorListView.ClearFilters | frontend/src/pages/AuthorList/AuthorList.tsx:111-116 | Handler of the never-shown "Clear filters" buttons: sort becomes "newest", the term empty and the page 1, so no filter is active. The reload still carries the term and sort held before the click, and its answer replaces the list or leaves it with an error. |
| AuthorList.SearchTriggersCases | frontend/src/pages/AuthorList/AuthorList.tsx:85 | A term of JavaScript length 1 never reloads. An empty box, a term of 2 or more characters, and a single astral character always do. |
| AuthorList.SearchTriggers | frontend/src/pages/AuthorList/AuthorList.tsx:85 | Definition: a settled term reloads when it is empty or its JavaScript length is 2 or more (cases in `AuthorList.SearchTriggersCases`). |
| AuthorList.HasActiveFilters | frontend/src/pages/AuthorList/AuthorList.tsx:142 | Definition: filters are active while the sort is not "newest" or the term is non-empty; `ClearFilters` makes it false (on the page the term and sort never change, so it stays false). |
| AuthorList.CardImage | frontend/src/pages/AuthorList/AuthorList.tsx:118-128 | The picture always starts with "http", and it is the portrait placeholder for an empty path. |
| BookSearch.RequestFor | frontend/src/features/Search/BookSearch/BookSearch.tsx:56-68 | A request goes out iff the query's JavaScript length is at least 2, and it carries the query, the type and limit 20. |
| BookSearch.RequestsMatchEndpointGuard | frontend/src/features/Search/BookSearch/BookSearch.tsx:57-60 | The modal sends exactly the queries the search endpoint accepts. |
| BookSearch.DisplayResults | frontend/src/features/Search/BookSearch/BookSearch.tsx:113 | Nothing is shown while the box is empty; otherwise the results are. |
| BookSearch.ResultImage | frontend/src/features/Search/BookSearch/BookSearch.tsx:107-111 | A result has a picture iff it has a cover path, and the URL starts with "http". |
| BookSearch.BookSearchView.constructor | frontend/src/features/Search/BookSearch/BookSearch.tsx:47-51 | Empty query, type "all", no results, not loading, no error. |
| BookSearch.BookSearchView.SetQuery | frontend/src/features/Search/BookSearch/BookSearch.tsx:47 | Only the query changes. |
| BookSearch.BookSearchView.SetType | frontend/src/features/Search/BookSearch/BookSearch.tsx:48 | Only the type changes. |
| BookSearch.BookSearchView.PerformSearch | frontend/src/features/Search/BookSearch/BookSearch.tsx:56-85 | A short query clears the results and sends nothing. A success shows `data`; a refusal shows its message with no results; a failure shows the connection error with no results. `loading` ends false. |
| BookSearch.BookSearchView.QuerySettled | frontend/src/features/Search/BookSearch/BookSearch.tsx:88-95 | A settled non-empty query is searched with the held type. The results, error and spinner then are those of `PerformSearch`. An empty query clears the results and the spinner and keeps the error. |
| BookSearch.BookSearchView.Close | frontend/src/features/Search/BookSearch/BookSearch.tsx:98-105 | Closing resets query, results, error and loading, so nothing is displayed. |
| Header.FilteredResultsExact | frontend/src/components/Header/Header.tsx:52-63 | The results are an order-preserving subsequence of the sample books, holding exactly those that match on the chosen tab. |
| Header.FilteredResults | frontend/src/components/Header/Header.tsx:52-63 | Definition: the samples that match on the chosen tab (properties in `Header.FilteredResultsExact`). |
| Header.TabsLookAtOneField | frontend/src/components/Header/Header.tsx:53-62 | "book" looks at the title only, "author" at the author only, anything else at either. |
| Header.EmptyQueryMatchesAll | frontend/src/components/Header/Header.tsx:52-63 | An empty query matches all five samples on every tab. |
| Header.CountLabelPlural | frontend/src/components/Header/Header.tsx:238-239 | The label ends in "results" iff the count is not 1. |
| Header.CountLabel | frontend/src/components/Header/Header.tsx:238-239 | Definition: "Found N result" with an "s" unless N is 1 (proved in `Header.CountLabelPlural`). |
| Header.PanelFor | frontend/src/components/Header/Header.tsx:228-239 | The prompt shows iff the query is empty, even though everything matches. Otherwise non-empty results come with their count label, or "no results". |
| Header.Close | frontend/src/components/Header/Header.tsx:166-169 | Closing hides the panel and clears the query, so the prompt is shown next time. |
| AdminPages.AdminList.constructor | frontend/src/pages/Books/Books.tsx:9-15 | Page 1, limit 5, no rows, zero counts, modal closed. |
| AdminPages.AdminList.Fetch | frontend/src/pages/Books/Books.tsx:18-37 | Missing fields read as no rows and zero counts, and a failure clears the table; page and limit are untouched. |
| AdminPages.AdminList.HandleDelete | frontend/src/pages/Books/Books.tsx:93-116 | Unconfirmed or failed deletes change nothing (rows, page, counts and spinner stay). After a delete, the only row on a page beyond 1 steps back one page; otherwise the same page is reloaded. Either way the table then holds the reload's rows and counts, or is empty if it failed. |
| AdminPages.AdminList.ChangePage | frontend/src/pages/Books/Books.tsx:243 | The table's page change sets the page; rows, counts, limit, spinner and modal stay. |
| AdminPages.AdminList.ChangeLimit | frontend/src/pages/Books/Books.tsx:244-247 | A new limit is set and resets to page 1; rows, counts, spinner and modal stay. |
| AdminPages.AdminList.OpenForm | frontend/src/pages/Books/Books.tsx:9 | Opening the form opens the modal; rows, page, limit, counts and spinner stay. |
| AdminPages.AdminList.Created | frontend/src/pages/Books/Books.tsx:78-83 | Success closes the modal and reloads page 1, and the table then holds that answer's rows and counts; failure changes nothing (modal, rows, page, limit, counts and spinner stay). |
| AdminPages.StepBackLandsOnLastPage | frontend/src/pages/Books/Books.tsx:103-105 | With pages of 2 or more rows, a lone row on page `p > 1` means `p` was the last page, and after the delete `p-1` is the last page. |
| AdminPages.SamePageStillExists | frontend/src/pages/Books/Books.tsx:107 | A page that showed 2 or more rows still exists after one is deleted. |
| AdminPages.NumText | frontend/src/pages/Books/Books.tsx:51-54 | `String(n)`: "NaN" for NaN and the decimal digits for a non-negative integer. |
| AdminPages.InputNumber | frontend/src/forms/AddBookForm.tsx:129-139 | An empty number input reads as NaN, and a filled one as its value. |
| AdminPages.BuildBookFormData | frontend/src/pages/Books/Books.tsx:44-63 | Appends title, description, the year when truthy, the author id always, and each picked file. |
| AdminPages.BookEntries | frontend/src/pages/Books/Books.tsx:46-63 | Definition: the Books page's `FormData` entries; `BuildBookFormData` is proved to build it and `BookFormFillsCreateDraft` traces it through the server. |
| AdminPages.BuildAuthorFormData | frontend/src/pages/Authors/Authors.tsx:45-51 | Appends `fullName` as "name", the bio, and the image when picked. |
| AdminPages.AuthorEntries | frontend/src/pages/Authors/Authors.tsx:45-51 | Definition: the Authors page's `FormData` entries; `BuildAuthorFormData` builds it and `AuthorFormFillsCreateFields` traces it through the server. |
| AdminPages.Transmit | frontend/src/pages/Books/Books.tsx:65-68 | One multipart part per entry, in order: part `i` is the encoding of entry `i`. |
| AdminPages.BookFormFillsCreateDraft | backend/src/routes/bookRoutes.js:71-100 | Every field the Books page sends lands in the create handler's slot of that name. |
| AdminPages.AcceptableFormPassesCreateCheck | backend/src/routes/bookRoutes.js:112-113 | A form the add-book validators accept (author id not 0) passes the handler's required-field check. Both file slots are then set, and the year is a number. |
| AdminPages.AuthorFormFillsCreateFields | backend/src/routes/authorRoutes.js:72-91 | The author create handler reads the Authors form as name from `fullName`, the bio, and the stored image path when one was picked. |

## Left out

- Unrendered inputs: the e-book page's search input is commented out (frontend/src/pages/Ebook/Ebook.tsx:161-176), and the author directory renders no search box or sort control (frontend/src/pages/AuthorList/AuthorList.tsx:195-196) and never opens its filter panel (199-229). So `Ebook.EbookView.SetSearchTerm`, `AuthorList.AuthorListView.SetSearchTerm`, `AuthorList.AuthorListView.SetSort` and `AuthorList.AuthorListView.ClearFilters` model the handlers as the code defines them, not user actions the page offers. On the page, `SearchSettled` and the sort reload run only at mount, with the empty term and "newest"; `Ebook.FilteredBooks` keeps every book; and `AuthorList.HasActiveFilters` stays false, so the "Clear filters" button (395-397) never shows.
- The relational store is an abstract value.
  - Its `contains`/`insensitive` matching is an input: the search handler receives the matching rows.
  - Its refusal to delete an author that books refer to is assumed to come from a restrict-on-delete foreign key.
  - A create with an unparsable year is assumed to be refused by the store (500).
- Bookclub.ShuffleArray: `Math.random` is replaced by an arbitrary choice of `j` in `0..i`, so only the permutation is proved, not the distribution.
- Bookclub.RelevanceSort: modelled as the stable partition that `Array.prototype.sort` yields for this three-valued comparator.
- BookRoutes.AsNum: JSON bodies are assumed well-typed, with an integer year and author id and string text fields. A string `authorId` such as "0" (truthy, so past the 400 check and then refused by the store with 500) and a request with no body at all (the destructuring throws, 500) are not modelled.
- Bookclub.Search: `limit` is taken as an already-parsed natural number; a non-numeric or negative `limit` string is not modelled.
- Carousel data, `/list` endpoints, the dashboard counts and the users routes are pure store passthroughs and are not modelled.
- BookRoutes.ListBooks: for a page or limit below 1 the rows are left unspecified (`None`), since the store's answer to a negative skip or take is not modelled.
- AuthorRoutes.ListAuthors: leaves the rows unspecified for a page or limit below 1, as ListBooks does.
- `Date.now()` is a per-part stamp.
  - The admin forms' trace lemmas use one stamp for the whole request.
  - Directory creation, write streams and `existsSync` are not modelled; the upload directory is a set of stored paths.
- The database's error texts are not spelled out; a reply carries only the prefix the handler adds.
- Floating point is not modelled.
  - `Math.ceil` is exact integer ceiling division.
  - `parseInt` is "an integer or NaN".
  - `String(Number(x))` is assumed to parse back to the same number, and the server's `parseInt` of other text fields is the `parse` parameter.
- String lengths are counted in UTF-16 code units, as JavaScript counts them. `toLowerCase` is modelled on ASCII letters only; `encodeURIComponent` is not modelled.
- Network, timing and React effects are not modelled: the debounce timers, request-ordering races, the effect that fires on first render, and the refetch a state change would trigger later.
- The AuthorList page sends search and sort parameters, but the authors list endpoint reads only page and limit. The model keeps both sides as written.
- AdminPages.StepBackLandsOnLastPage: requires a page size of at least 2. With size 1 the page before the last shows one row too; the page offers sizes 5, 10, 20 and 50.
- AuthorList.AuthorListView.HandleLoadMore: models the same advance-before-success page bookkeeping as the e-book shelf, as written. The corrected form is given for the e-book shelf only.
- Date formatting, navigation, alerts, window opening, rendering, and the presentation-only components are not modelled.

## Findings

| source | as written | input that shows it | evidently intended | confidence | as-written member | corrected member |
|---|---|---|---|---|---|---|
| frontend/src/pages/Ebook/Ebook.tsx:68-72 | `handleLoadMore` stores `page + 1` before the request, and a failed request keeps it; Retry reloads page 1 but keeps `page` | page 1 shown; "Load More" fails; "Load More" again asks for page 3 and the shelf shows pages 1 and 3, page 2 never appears | the page number advances only once the next page has been accepted, so the shelf always shows pages 1..page | not executed | Ebook.FailedLoadMoreSkipsAPage | Ebook.EbookView.HandleLoadMoreInStep |
