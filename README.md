# bamba-bot menu text, modelled in Dafny

bamba-bot collects lunch menus for a handful of restaurants near Malmö and writes them to
`menu.json`. Most of its code drives a browser, downloads images and runs Tesseract. This
project models the deterministic text processing that sits inside that plumbing and proves
what it does:

- `clean_menu_text` (the same definition appears in scraper.py and fb.py). It deletes four UI
  labels, then phone numbers, e-mail addresses and web paths. Then it turns every whitespace run
  into one blank and strips both ends. Module `Cleaning` (cleaning.dfy).
- `get_current_weekday`, the map from Monday = 0 … Sunday = 6 to Swedish day names. The clock is
  a parameter. Module `Weekdays` (weekdays.dfy).
- The line processing of `scrape_la_gare_menu`:
  - find the first line that is exactly today's header;
  - scan at most five lines after it for dishes, stopping at another weekday;
  - add at most one `Vegetarisk: ` line found after the first "dagens veg" marker;
  - join the result with line feeds, or return nothing.

  Module `LaGare` (la_gare.dfy).
- The OCR best-of-three selection of `_ocr_image_bytes` and `extract_text_from_images`. Module
  `Ocr` (ocr.dfy).
- The loops that search images for menu text, with their menu filters:
  - `extract_text_from_images` (every image);
  - `scrape_ica_instaloader` (at most `max_posts` posts);
  - `scrape_ica_instagram` (the first eight images).

  Module `ImageMenus` (image_menus.dfy). Module `Found` (found.dfy) holds the "collect every hit"
  and "first hit" sequences that these loops and the Facebook selector share.
- The lunch-candidate selector of `scrape_facebook_page` in fb.py:
  - lines that mention lunch trigger a window of up to seven context lines;
  - a window whose joined text is longer than 50 characters becomes a candidate;
  - the first longest candidate is cleaned and returned.

  Module `FacebookLunch` (facebook.dfy).
- `Text` (text.dfy) models the Python `str` operations used: `strip`, `lower`, `capitalize`, `in`,
  `startswith`, `split` and `join`. `Wrappers` holds `Option`, which stands for `None`-or-value.

Where the source updates variables in a loop, the model has a `method` with that loop. Each such
method is proved equal to a specification function, and the specification functions carry the
lemmas. Examples are `CleanMenuText`, `ExtractLaGareMenu`, `SelectBestText`,
`ScrapeIcaInstaloader` and `SelectLunchContent`.

The regular expressions are modelled by deterministic matchers, one per pattern, and `re.sub`
by a leftmost, non-overlapping scan that deletes each match (`Cleaning.Delete`). The email and
web-path patterns alternate runs of `[a-zA-Z]` with separators that are not letters, so a
greedy match is the only possible match.

`clean_menu_text` is not idempotent: `"All\nreactions:"` cleans to `"All reactions:"`, which
cleans to `""` (`Cleaning.CleanNotIdempotent`). Only the whitespace step is idempotent
(`Cleaning.TidyIdempotent`).

The cleaner's output can still contain a whole phone number. The phone substitution
(scraper.py:109) runs before the whitespace collapse (scraper.py:114), so a number whose blank
is a line feed escapes it. For example, `"123-45\n67 89"` cleans to the whole number
`"123-45 67 89"` (`Cleaning.CleanKeepsBrokenNumber`).

## Model

| member | source | states |
|---|---|---|
| Cleaning.CleanMenuText | scraper.py:95-116 | runs the four label deletions in order, then the phone, e-mail and web-path deletions, then the whitespace step; the result is never longer than the input, every whitespace character left is a single blank between non-blanks, and nothing is left at either end |
| Cleaning.CleanShape | fb.py:58-79 | fb.py's copy of the cleaner gives the same guarantees: never longer, single blanks only, no whitespace at either end |
| Cleaning.CleanKeepsProtected | scraper.py:95-116 | the characters no step can touch (anything but whitespace, ASCII letters, digits and the characters `-`, `.`, `@`, `/`, `:`, the vertical bar and `ö`) come out exactly as they went in, in the same order |
| Cleaning.CleanFixesCleanText | scraper.py:95-116 | a text that is already single-blanked, has no whitespace at either end, and contains no label, phone number, e-mail address or web path is returned unchanged |
| Cleaning.CleanKeepsBrokenNumber | scraper.py:109-114 | for example, `"123-45\n67 89"` cleans to `"123-45 67 89"`, a whole number of the `\d{3}-\d{2} \d{2} \d{2}` shape |
| Cleaning.CleanNotIdempotent | scraper.py:98-114 | cleaning is not idempotent: a label split across a line break survives the first pass and is deleted by the second |
| Cleaning.LetterRun | scraper.py:110-111 | what a greedy `[a-zA-Z]+` takes: a run of ASCII letters that the next character does not extend |
| Cleaning.LettersThen | scraper.py:110-111 | a match of `[a-zA-Z]+` followed by a separator: at least one letter, then the separator; and conversely, for a separator that is not a letter, a text that starts with `a` letters and then the separator matches with length `a + 1` |
| Cleaning.TemplateAt | scraper.py:109 | a phone match has a digit at each `\d` position and the literal `-` or blank elsewhere |
| Cleaning.MatchAlphabet | scraper.py:106-111 | every character inside a match belongs to its pattern's alphabet |
| Cleaning.ChainAlphabet | scraper.py:110-111 | a match of the e-mail or web-path pattern consists of ASCII letters and its separators only |
| Cleaning.Delete | scraper.py:105-111 | a deletion step (`str.replace(w, "")` or `re.sub(p, '', s)`) never lengthens the text |
| Cleaning.DeleteStepsShrink | scraper.py:105-111 | the seven deletion steps together never lengthen the text |
| Cleaning.DeleteKeepsSurvivors | scraper.py:105-111 | a deletion step keeps every protected character, in order |
| Cleaning.DeleteUnmatched | scraper.py:105-111 | a deletion step leaves a text with no match anywhere unchanged |
| Cleaning.UiElementSparesProtected | scraper.py:98-103 | none of the four UI labels contains a protected character |
| Cleaning.NoisePatternsSpareProtected | scraper.py:98-111 | no deletion pattern can match a protected character |
| Cleaning.PhoneDeletesWholeNumbers | scraper.py:109 | the phone step shortens the text by exactly 12 characters per number found by the left-to-right scan |
| Cleaning.DeleteKeepsUnmatchedPrefix | scraper.py:105-111 | a deletion step keeps, unchanged and in order, every character before the first place a match starts |
| Cleaning.DeleteDropsFirstMatch | scraper.py:105-111 | the first match a deletion step meets is dropped whole, the text before it is kept, and the scan resumes right after it |
| Cleaning.PhoneStepChangesIffNumber | scraper.py:109 | the phone step changes the text if and only if the scan finds a number in it |
| Cleaning.CollapseShape | scraper.py:114 | `re.sub(r'\s+', ' ', s)` never lengthens, leaves only single blanks, and starts with whitespace exactly when its input does |
| Cleaning.BlankedMeans | scraper.py:114 | after the collapse, every whitespace character is a blank and no two whitespace characters are adjacent |
| Cleaning.CollapseKeepsSurvivors | scraper.py:114 | the collapse keeps every protected character, in order |
| Cleaning.CollapseKeepsVisible | scraper.py:114 | the collapse keeps every non-whitespace character, in order |
| Cleaning.CollapseNoSpacePrefix | scraper.py:114 | whitespace-free text in front passes through the collapse unchanged |
| Cleaning.CollapseRun | scraper.py:114 | a whole whitespace run, of any length and any whitespace characters, becomes one blank (with `CollapseNoSpacePrefix`, non-whitespace text passes through) |
| Cleaning.StripKeepsVisible | scraper.py:114 | `strip()` keeps every non-whitespace character, in order |
| Cleaning.StripKeepsSurvivors | scraper.py:114 | `strip()` keeps every protected character, in order |
| Cleaning.TidyShape | scraper.py:114 | the whitespace step leaves single blanks only, nothing at either end, and never lengthens |
| Cleaning.TidyKeepsVisible | scraper.py:114 | the whitespace step changes whitespace only: its result's non-whitespace characters are its input's, in order |
| Cleaning.TidyFixesTidyText | scraper.py:114 | the whitespace step leaves an already tidy text unchanged |
| Cleaning.TidyIdempotent | scraper.py:114 | the whitespace step is idempotent |
| Weekdays.WeekdayName | scraper.py:82-93 | the lookup is total on 0..6 and gives a lower-case name that starts with an ASCII letter and ends in "dag" |
| Weekdays.WeekdayNamesDistinct | scraper.py:84-92 | different day numbers have different names |
| Weekdays.WeekdayIndex | scraper.py:84-92 | the inverse lookup: a day it returns has the given name |
| Weekdays.WeekdayIndexInverts | scraper.py:84-92 | looking up a day's name gives back that day, and a string that is no day's name gives nothing |
| Text.Split | scraper.py:359 | `split('\n')` gives at least one piece, and no piece contains the separator |
| Text.JoinSplit | fb.py:108 | joining the pieces of `split(c)` with `c` gives back the page text |
| Text.SplitJoin | scraper.py:412-413 | splitting a `"\n".join` of line-feed-free items gives back the items |
| Text.StripSlice | scraper.py:114 | `strip()` returns the slice between an all-whitespace prefix and an all-whitespace suffix, and has no whitespace at either end |
| Text.LowerCapitalize | scraper.py:376 | lower-casing `today.capitalize()` gives back the lower-case day name |
| LaGare.HeaderIsExact | scraper.py:375-376 | for a weekday name, the two-part header test is equivalent to "the stripped line equals the capitalized name" |
| LaGare.FirstHeaderIsFirst | scraper.py:375-376 | the header chosen is a header, and no earlier line is one; with no header, no line is one |
| LaGare.FirstHeaderFound | scraper.py:392 | once a header is found, later lines do not change which header is used (the outer `break`) |
| LaGare.StopDaysAreWorkdays | scraper.py:384 | the stop words are exactly the names of Monday to Friday |
| LaGare.DishScanCount | scraper.py:380-390 | the scan keeps at most one dish per line examined |
| LaGare.DishScanStopped | scraper.py:384-385 | once a weekday line stops the scan, later lines change nothing |
| LaGare.DishScanStopsAtWeekday | scraper.py:383-385 | the scan is still running exactly when no line so far named a Monday–Friday day other than the header line |
| LaGare.DishScanKeeps | scraper.py:380-390 | a line is kept if and only if it comes after the header, is a dish (longer than 15, with a dish word) and is reached before any stop line |
| LaGare.DayDishesBounds | scraper.py:375-392 | at most 5 dishes; each kept line is a stripped line among the 5 after the header, is a dish and comes before the first stop line, and every such line is kept |
| LaGare.DishScanInOrder | scraper.py:380-390 | the kept dishes are the stripped lines at strictly increasing indices after the header and before the end of the scan, the p-th dish is the line at the p-th index, and every scanned dish line reached before a stop line is among them |
| LaGare.DayDishesInOrder | scraper.py:375-392 | a day's dishes are its stripped lines at strictly increasing indices within the 5 lines after the header, in line order, and every dish line before the first stop line in that window is among them |
| LaGare.FirstVegMarkerIsFirst | scraper.py:395-396 | the marker used is the first line containing "dagens veg" |
| LaGare.FirstVegMarkerFound | scraper.py:395-410 | once a marker is found, later lines do not change which marker is used |
| LaGare.VegScanFound | scraper.py:402-405 | once the vegetarian dish is found, later lines change nothing |
| LaGare.VegScanFindsFirst | scraper.py:398-409 | the scan finds nothing if and only if no scanned line is a vegetarian dish; otherwise it keeps the first one, prefixed |
| LaGare.VegDishBounds | scraper.py:395-410 | at most one line; it is `Vegetarisk: ` plus the first of the 7 stripped lines after the marker that is longer than 15 and names vitlök, tomat or persilja, and it is absent exactly when no such line exists |
| LaGare.MenuItemsHaveNoBreak | scraper.py:359-410 | no collected item contains a line feed |
| LaGare.LaGareMenuItems | scraper.py:412-418 | the result is None exactly when nothing was collected; otherwise splitting it at line feeds gives the collected items, day dishes first |
| LaGare.ScanDishes | scraper.py:380-390 | the inner dish loop with its `break` computes the dish scan over the 5 lines after the header |
| LaGare.ScanVegDish | scraper.py:398-410 | the inner vegetarian loop, including the French-pasta `continue`, computes the vegetarian scan |
| LaGare.FindDayDishes | scraper.py:375-392 | the header loop scans after the first header only |
| LaGare.FindVegDish | scraper.py:395-410 | the marker loop scans after the first marker only |
| LaGare.ExtractLaGareMenu | scraper.py:358-418 | the whole extractor computes the specified menu for the page text and weekday |
| Ocr.SelectBestText | scraper.py:183-190 | the configuration loop computes the best text so far, skipping runs that raised |
| Ocr.OcrImageBytes | scraper.py:174-194 | `_ocr_image_bytes` returns the stripped best text, or "" when the image cannot be opened |
| Ocr.BestIsLongest | scraper.py:184-188 | no successful run has a longer stripped text than the one kept |
| Ocr.BestIsEmpty | scraper.py:183-190 | the kept text is "" if and only if every successful run's stripped text is empty (or none succeeded) |
| Ocr.BestIsEarliest | scraper.py:186-188 | a non-empty kept text is one run's text, and every earlier run's stripped text is strictly shorter: ties go to the earliest |
| Ocr.OcrTextIsStripped | scraper.py:191-194 | the text `_ocr_image_bytes` returns is already stripped |
| Found.CollectedInOrder | scraper.py:125-161 | the texts collected by a loop of `append`s are those of the hits, each listed once and in increasing index order |
| Found.CollectedIsFound | scraper.py:125-161 | a text is collected if and only if some item yielded it |
| Found.CollectedNone | scraper.py:168 | nothing is collected exactly when no item yielded a text |
| Found.FirstFoundIsFirst | scraper.py:220-237 | the first-hit search returns the text of a hit before which there was none, and nothing only when there is no hit |
| Found.FirstFoundStays | scraper.py:237 | once a hit is found, later items do not matter (the early `return`) |
| Found.FirstFoundPrefix | scraper.py:280 | the first hit among the first n items does not depend on the items after them |
| Found.FirstFoundIsFirstCollected | scraper.py:220-237 | the first hit is the first text a full collection would list |
| ImageMenus.ImageMenuTextShape | scraper.py:160-161 | a kept image text is stripped and longer than 20 characters |
| ImageMenus.ImagesMenuNone | scraper.py:168 | `extract_text_from_images` returns None if and only if no image yielded menu text |
| ImageMenus.ImagesMenuTexts | scraper.py:125-168 | the texts joined by blank lines are exactly the menu texts of the images, in page order |
| ImageMenus.InstaloaderExaminesAtMost | scraper.py:219-223 | posts after the first `max_posts` never affect the result |
| ImageMenus.InstaloaderMenuIsFirst | scraper.py:219-242 | the result is the cleaned text of the first qualifying post among those examined (at most `max_posts`, none when it is not positive), and None if and only if none qualifies |
| ImageMenus.InstagramExaminesEight | scraper.py:280 | images after the first eight never affect the result |
| ImageMenus.InstagramMenuIsFirst | scraper.py:280-308 | the result is the cleaned text of the first qualifying image among the first eight, and None if and only if none qualifies |
| ImageMenus.InstagramMenusAreClean | scraper.py:235-237 | both Instagram scrapers return text with single blanks and no whitespace at either end |
| ImageMenus.ExtractTextFromImages | scraper.py:118-172 | the image loop computes the specified joined menu text |
| ImageMenus.ScrapeIcaInstaloader | scraper.py:219-242 | the post loop with its `count_checked` bound computes the specified result |
| ImageMenus.ScrapeIcaInstagram | scraper.py:280-308 | the loop over `posts[:8]` computes the specified result |
| FacebookLunch.WindowSpan | fb.py:127-130 | the window around line i contains i, lies within the lines, and spans at most 7 lines |
| FacebookLunch.ContextUpToKeeps | fb.py:130-133 | the context loop keeps at most one line per index, and keeps exactly the scanned stripped lines longer than 10 characters |
| FacebookLunch.ContextWindow | fb.py:127-134 | a window keeps at most 7 lines, exactly its long stripped lines, and always the trigger line itself |
| FacebookLunch.ContextUpToInOrder | fb.py:130-133 | the context lines are the stripped lines at strictly increasing indices of the scanned range, the p-th kept line is the line at the p-th index, and every long line of the range is among them |
| FacebookLunch.ContextWindowInOrder | fb.py:127-134 | a window's context lines are its long stripped lines in line order, each once, and no long line of the window is missing |
| FacebookLunch.CandidateShape | fb.py:121-136 | a candidate comes from a stripped line of at least 20 characters with a lunch keyword in its lower-cased form, and is longer than 50 characters |
| FacebookLunch.LunchCandidatesInOrder | fb.py:121-136 | the candidates are the windows of the triggering lines, each listed once, in increasing line order |
| FacebookLunch.LongestIsFirstLongest | fb.py:140 | `max(..., key=len)` returns a candidate at least as long as every other, and the first one on ties |
| FacebookLunch.LunchContentResult | fb.py:139-146 | the result is None if and only if no line yields a candidate; otherwise it is the cleaned longest candidate, tidy and no longer than that candidate |
| FacebookLunch.GatherContext | fb.py:127-134 | the context loop computes the window's context lines |
| FacebookLunch.CollectLunchCandidates | fb.py:117-136 | the trigger loop computes the candidate list |
| FacebookLunch.SelectLunchContent | fb.py:107-146 | the selector splits the page text at line feeds and returns the cleaned first longest candidate of those lines, or `None` when there is none |

## Left out

- Browser work: Selenium setup, page loading, scrolling, cookie clicks and `driver.quit()`. The
  page text (La Gare, Facebook) and the image list are parameters.
- `requests.get`, PIL image opening and resizing, and Tesseract. A download is modelled by its
  status code and the outcome of each Tesseract run, with an exception as `None` or `Failed`.
  The upscaling of small images does not affect the text selection and is not modelled.
- Instaloader: login, the profile lookup and post iteration. The posts are given as a sequence of
  downloads. insta.py is not part of this model. It only takes the first post and writes JSON.
- `format_menu_with_openai` in both files: a prompt template plus a call to an external service.
- JSON output, `print`, `time.sleep` and `datetime.now()`. The weekday index is a parameter.
- The outer `try`/`except` blocks that turn any exception into `None` (or `""`). Only the
  exceptions the loops catch themselves are modelled.
- The `if not posts:` fallback in `scrape_ica_instagram` picks a different CSS selector, which is
  browser work. The images it returns are the input.
- The French-pasta branch of the La Gare vegetarian scan only prints and continues. It behaves
  like any other non-matching line, which `LaGare.ScanVegDish` keeps as a branch.
- `\d` is modelled as the ASCII digits. Python's `\d` on `str` also matches other Unicode
  decimal digits.
- `str.lower()` is modelled over ASCII and Latin-1 capitals (Å, Ä, Ö, É, …). `str.upper()`
  and `capitalize()` are modelled over ASCII and Latin-1 small letters other than ß, ÿ and µ,
  which the model leaves unchanged and Python maps to "SS", U+0178 and U+039C; only weekday
  names are capitalized, so nothing depends on them. `\s` and `strip()` are modelled over the
  Unicode whitespace characters. Other scripts' case mappings are not modelled.
