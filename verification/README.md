# Exam-system question bank, modelled in Dafny

This project models the service core of an online exam back end: the
question bank (save, update, delete, detail, popular list and the batched
fill of choices and answers), the category tree (question counts, the
children roll-up, add/update/delete guards), test papers (create with
links and total score, detail sorted by question type), AI question
generation (the prompt text, the three-attempt call, extraction of the
fenced JSON block, mapping to import records), the per-record check of a
batch import, and the banner image upload and defaults.

The database is one immutable value, `Store.Db`: each table is a sequence
in primary-key order, and ids come from one auto-increment counter. An
operation that the source runs in a transaction returns either a new
store or an `Err` (module `Base`), so a failure changes nothing. A Java
exception, whether thrown by the code or raised by the runtime (a null
unboxed, a duplicate key in `Collectors.toMap`), is an `Err` value.

Modules, one per part of the program:

- `Base`: `Option`, `Result`, and the error kinds.
- `Store`: the rows, the store, and the lookups (`getById`, select and delete by question id, link counts).
- `Strings`: `trim`, `indexOf`, `lastIndexOf`, `split`, and integer printing. They have the Java meaning the code relies on.
- `StableSort`: the stable list sort that `List.sort` and `ORDER BY` stand for.
- `Questions`: `QuestionServiceImpl` save, update, delete, detail and fill.
- `Popular`: `customFindPopularQuestions` and the view counter.
- `Categories`: `CategoryServiceImpl`.
- `Papers`: `PaperServiceImpl`.
- `AiGeneration`: `KimiAiServiceImpl`.
- `Imports`: the import record and `QuestionBatchController.validateSingleQuestion`.
- `Banners`: `BannerServiceImpl`.

Behaviour of the code that a reader might not expect, which the model follows:

- Category counts are rolled up in one pass over the list, in list order. This is not a recursive subtree sum. A parent listed before its child adds the child's count before the child has added its own children's counts (`Categories.RollUpOrderMatters`). When children come first, the pass is a full subtree sum (`Categories.RollUpChildrenFirst`).
- A reply from the AI service whose envelope is not JSON is retried like any other failed attempt. After three attempts it ends with the retry error (`AiUnavailable`), not with the malformed-reply error. The malformed-reply error is raised only when a reply's content holds no usable fenced block.
- `customFindPopularQuestions(0)` reads the range `0..-1`, which is the whole board. It returns every resolvable entry, not an empty list (`Popular.PopularZeroSize`).
- Adding a category whose name is taken under a root builds its message from `getById(0)`, which is null. The result is a null dereference, not the duplicate message (`Categories.DuplicateError`).
- `updateCategory` with an unknown id succeeds and changes nothing.
- Deleting a category leaves its children in place, still pointing at the removed parent id.

## Model

| member | source | states |
|---|---|---|
| Questions.Letter | src/main/java/com/atguigu/exam/service/impl/QuestionServiceImpl.java:114 | the answer letter of choice position i (below 26) is the i-th capital letter, A for the first choice |
| Questions.AnswerLettersIsJoin | src/main/java/com/atguigu/exam/service/impl/QuestionServiceImpl.java:100-119 | the answer string a choice question is saved with is the comma-join of the letters of its correct choices, in choice order; it is empty exactly when no choice is marked correct |
| Questions.AnswerLettersChars | src/main/java/com/atguigu/exam/service/impl/QuestionServiceImpl.java:100-119 | every character of the answer string is a comma or the letter of a correct choice, and the letter of every correct choice occurs in it |
| Questions.AnswerLettersDecode | src/main/java/com/atguigu/exam/service/impl/QuestionServiceImpl.java:100-119 | with at most 26 choices, the letter of choice i occurs in the answer string if and only if choice i is marked correct, so the string decodes back to the flags |
| Questions.AnswerLettersExamples | src/main/java/com/atguigu/exam/service/impl/QuestionServiceImpl.java:110-114 | the comment's example: correct choices 1 and 3 give "B,D"; a single correct choice gives just its letter; none gives "" |
| Questions.Flags | src/main/java/com/atguigu/exam/service/impl/QuestionServiceImpl.java:109 | the unboxed correct-flag of each choice, true exactly where the flag is set to true; it is used only once every flag is set, an unset flag being the null dereference of the save and the update |
| Questions.ChoiceRows | src/main/java/com/atguigu/exam/service/impl/QuestionServiceImpl.java:101-108 | the rows inserted for the choices: one per choice, in order, sort = position, owning question id, same content and correct-flag |
| Questions.CreateQuestion | src/main/java/com/atguigu/exam/service/impl/QuestionServiceImpl.java:75-125 | saving fails with the duplicate error when a question of the same type and title exists; it succeeds exactly when no such question exists, the answer object is present and, for CHOICE, the choice list is present with every correct-flag set; a null answer object, a null choice list or an unset flag is a null dereference; papers, links and categories are untouched |
| Questions.CreateQuestionValid | src/main/java/com/atguigu/exam/service/impl/QuestionServiceImpl.java:75-125 | a successful save keeps ids unique across every table |
| Questions.CreateQuestionAdds | src/main/java/com/atguigu/exam/service/impl/QuestionServiceImpl.java:88 | the new question gets the next id, which was free before, is found by that id afterwards, and every prior row of every table is kept |
| Questions.CreateQuestionAnswer | src/main/java/com/atguigu/exam/service/impl/QuestionServiceImpl.java:93-123 | exactly one answer row is stored for the new question, carrying the letter string for CHOICE and the supplied text otherwise |
| Questions.CreateQuestionChoices | src/main/java/com/atguigu/exam/service/impl/QuestionServiceImpl.java:97-120 | a CHOICE question gets exactly its choices, in order, with sort = position, its id, their content and flags; any other type gets no choice rows |
| Questions.ReplaceQuestion | src/main/java/com/atguigu/exam/service/impl/QuestionServiceImpl.java:154 | updateById rewrites only the row with the id (keeping its creation time) and leaves every other row as it was |
| Questions.SetAnswerText | src/main/java/com/atguigu/exam/service/impl/QuestionServiceImpl.java:191 | updateById on the answer: only the row with the supplied answer id changes and only when the new text is not null; ids and owners never change |
| Questions.UpdateQuestion | src/main/java/com/atguigu/exam/service/impl/QuestionServiceImpl.java:144-193 | the update fails when a question with another id has the title, fails with no-row-changed when the id is unknown, and otherwise succeeds exactly when the answer object is present and, for CHOICE, the choice list is present with every correct-flag set, any other failure being a null dereference; on success the question table is the `updateById` rewrite, papers, links and categories are untouched, a non-CHOICE update leaves the choice table alone and writes the supplied answer text (a null text keeping the stored one), and a CHOICE update writes the letters of its correct choices to the answer row |
| Questions.UpdateQuestionRow | src/main/java/com/atguigu/exam/service/impl/QuestionServiceImpl.java:153-157 | in a store with unique ids, after a successful update the id finds the updated row with its old creation time, every other question row is still there, and no new row appears |
| Questions.UpdateChoiceRows | src/main/java/com/atguigu/exam/service/impl/QuestionServiceImpl.java:161-189 | after a CHOICE update the question owns exactly the supplied choices, in order, with sort = position and fresh ids |
| Questions.UpdatedChoicesAre | src/main/java/com/atguigu/exam/service/impl/QuestionServiceImpl.java:166-186 | after a CHOICE update the question's choice rows are exactly the freshly numbered rows built from the supplied list |
| Questions.UpdateDropsOldChoices | src/main/java/com/atguigu/exam/service/impl/QuestionServiceImpl.java:163-166 | no choice row the question owned before a CHOICE update survives it |
| Questions.UpdateChoiceFrame | src/main/java/com/atguigu/exam/service/impl/QuestionServiceImpl.java:161-191 | the choices of every other question are unchanged, and the answer row with the supplied answer id now carries the recomputed letter string |
| Questions.UpdateExamples | src/main/java/com/atguigu/exam/service/impl/QuestionServiceImpl.java:180-188 | a two-choice update whose first choice is correct stores the answer "A" |
| Questions.DeleteQuestion | src/main/java/com/atguigu/exam/service/impl/QuestionServiceImpl.java:206-222 | deletion fails with the reference count when a paper links the question, fails with no-row-changed when the id is unknown, succeeds exactly otherwise, and then removes precisely the question, its choices and its answers |
| Questions.Attach | src/main/java/com/atguigu/exam/service/impl/QuestionServiceImpl.java:303-311 | hydrating one question leaves the question itself as it was |
| Questions.HydrateAsWritten | src/main/java/com/atguigu/exam/service/impl/QuestionServiceImpl.java:281-313 | the fill step as written: an empty list is returned as is; otherwise one entry per question (it fails for a CHOICE question without choice rows, see Findings) |
| Questions.Hydrate | src/main/java/com/atguigu/exam/service/impl/QuestionServiceImpl.java:281-313 | the fill step as intended: it fails only when two answer rows share a question id (the map collector's duplicate key); otherwise every question keeps its place, gets an answer row of its own (none exactly when it has none) and, for CHOICE only, a permutation of its own choice rows sorted by sort |
| Questions.AttachCorrect | src/main/java/com/atguigu/exam/service/impl/QuestionServiceImpl.java:305-311 | the per-question facts of the fill step: own answer row, choices only for CHOICE, sorted by sort and a permutation of its rows |
| Questions.HydrateAgreesWhenChoicesPresent | src/main/java/com/atguigu/exam/service/impl/QuestionServiceImpl.java:281-313 | where the as-written fill step succeeds it returns what the intended one does; where only it fails, the cause is a CHOICE question without choice rows |
| Questions.EmptyChoiceQuestionBreaksHydration | src/main/java/com/atguigu/exam/service/impl/QuestionServiceImpl.java:97-120 | a CHOICE question saved with an empty choice list is accepted, and the as-written fill step then fails on it while the intended one returns it with no choices |
| Questions.DetailQuestion | src/main/java/com/atguigu/exam/service/impl/QuestionServiceImpl.java:60-71 | the detail fails with not-found exactly when the id is unknown; for a known id it succeeds exactly when the question has at most one answer row, a second one being a duplicate key; on success it is that stored question with its own answer row (none exactly when it has none) and, exactly for CHOICE, its own choice rows sorted by `sort` |
| Store.FindQuestion | src/main/java/com/atguigu/exam/service/impl/QuestionServiceImpl.java:243-244 | getById: the row with the id when there is one, none exactly when no row has the id |
| Store.FindPaper | src/main/java/com/atguigu/exam/service/impl/PaperServiceImpl.java:49-53 | getById on papers: the row with the id, none exactly when no row has it |
| Store.FindCategory | src/main/java/com/atguigu/exam/service/impl/CategoryServiceImpl.java:105 | getById on categories: the row with the id, none exactly when no row has it |
| Store.ChoicesOfMembers | src/main/java/com/atguigu/exam/service/impl/QuestionServiceImpl.java:293 | the choice rows selected for a question id are exactly the rows carrying that id |
| Store.DropChoicesOfMembers | src/main/java/com/atguigu/exam/service/impl/QuestionServiceImpl.java:221 | deleting by question id keeps exactly the choice rows of other questions |
| Store.AnswersOfMembers | src/main/java/com/atguigu/exam/service/impl/QuestionServiceImpl.java:296 | the answer rows selected for a question id are exactly the rows carrying that id |
| Store.DropAnswersOfMembers | src/main/java/com/atguigu/exam/service/impl/QuestionServiceImpl.java:220 | deleting by question id keeps exactly the answer rows of other questions |
| Store.DropQuestionMembers | src/main/java/com/atguigu/exam/service/impl/QuestionServiceImpl.java:215 | removeById keeps exactly the questions with another id |
| Store.LinksTo | src/main/java/com/atguigu/exam/service/impl/QuestionServiceImpl.java:208-211 | the number of paper links to a question is zero exactly when no link names it |
| Popular.RangeRead | src/main/java/com/atguigu/exam/service/impl/QuestionServiceImpl.java:231 | the reverse range read 0..stop returns a prefix of the board of length stop+1 clamped to the board, and the whole board for stop -1 (size 0) |
| Popular.Hits | src/main/java/com/atguigu/exam/service/impl/QuestionServiceImpl.java:242-248 | every resolved cache entry pairs a board entry with the stored question of that id; stale ids add nothing |
| Popular.Candidates | src/main/java/com/atguigu/exam/service/impl/QuestionServiceImpl.java:256-257 | the top-up candidates are stored questions whose id is not among the ids read from the cache |
| Popular.Fallback | src/main/java/com/atguigu/exam/service/impl/QuestionServiceImpl.java:256-261 | the top-up query returns min(limit, number of candidates) rows |
| Popular.FallbackFacts | src/main/java/com/atguigu/exam/service/impl/QuestionServiceImpl.java:256-261 | the top-up rows are candidates, newest first, and no candidate left out is newer than one taken |
| Popular.HitsComplete | src/main/java/com/atguigu/exam/service/impl/QuestionServiceImpl.java:242-248 | every cache entry whose id resolves appears among the hits |
| Popular.HitsOrdered | src/main/java/com/atguigu/exam/service/impl/QuestionServiceImpl.java:236-248 | hits from a board sorted by score keep descending score order |
| Popular.FindPopular | src/main/java/com/atguigu/exam/service/impl/QuestionServiceImpl.java:225-272 | the popular list fails exactly when a listed question has two answer rows (a duplicate key) or a listed CHOICE question has no choice rows (a null dereference); otherwise it has one hydrated entry per selected question, each a stored question |
| Popular.FindPopularIntended | src/main/java/com/atguigu/exam/service/impl/QuestionServiceImpl.java:225-272 | the same list hydrated as intended fails exactly on a duplicate answer key; otherwise it has one entry per selected question, each a stored question |
| Popular.FindPopularAgrees | src/main/java/com/atguigu/exam/service/impl/QuestionServiceImpl.java:281-313 | where the as-written list succeeds it equals the intended one; where they differ, the as-written one is a null dereference and the intended one succeeds |
| Popular.PopularRowsExist | src/main/java/com/atguigu/exam/service/impl/QuestionServiceImpl.java:225-272 | every question in the popular list is a stored question |
| Popular.PopularCacheFirst | src/main/java/com/atguigu/exam/service/impl/QuestionServiceImpl.java:236-248 | the list starts with the resolved cache entries, in descending score, each the stored question of a board entry |
| Popular.PopularSplit | src/main/java/com/atguigu/exam/service/impl/QuestionServiceImpl.java:242-266 | the list is exactly the resolved cache rows followed by the top-up rows |
| Popular.PopularFallback | src/main/java/com/atguigu/exam/service/impl/QuestionServiceImpl.java:252-266 | after the cache rows come min(size - found, candidates) rows (none when the cache filled the list), none of them named by the range read, newest first, with no newer candidate left out |
| Popular.TopUpFacts | src/main/java/com/atguigu/exam/service/impl/QuestionServiceImpl.java:252-266 | the top-up block: its length, that it avoids every id the range read returned, newest first, and no newer candidate left out |
| Popular.ExcludedCoversRange | src/main/java/com/atguigu/exam/service/impl/QuestionServiceImpl.java:237-239 | every id the range read returned is excluded from the top-up query |
| Popular.PopularBound | src/main/java/com/atguigu/exam/service/impl/QuestionServiceImpl.java:225-272 | for size >= 1 the list never exceeds size; it has exactly size entries when cache hits plus candidates reach size, and all of them otherwise |
| Popular.PopularZeroSize | src/main/java/com/atguigu/exam/service/impl/QuestionServiceImpl.java:231-254 | size 0 reads the whole board (stop -1) and adds no top-up: the list is every resolved board entry |
| Popular.HitsDistinct | src/main/java/com/atguigu/exam/service/impl/QuestionServiceImpl.java:242-248 | a board with distinct members yields hits with distinct question ids |
| Popular.CandidatesDistinct | src/main/java/com/atguigu/exam/service/impl/QuestionServiceImpl.java:256-257 | candidates from a table with distinct ids have distinct ids |
| Popular.PopularDistinct | src/main/java/com/atguigu/exam/service/impl/QuestionServiceImpl.java:225-272 | no question appears twice in the popular list when the board members and table ids are distinct |
| Popular.PopularHitsDistinct | src/main/java/com/atguigu/exam/service/impl/QuestionServiceImpl.java:236-248 | the cache block of the list has distinct ids |
| Popular.TopUpDistinct | src/main/java/com/atguigu/exam/service/impl/QuestionServiceImpl.java:256-266 | the top-up block has distinct ids, none among the excluded ids |
| Popular.PopularHitsExcluded | src/main/java/com/atguigu/exam/service/impl/QuestionServiceImpl.java:237-239 | every id of the cache block is one of the excluded ids |
| Popular.FallbackDistinct | src/main/java/com/atguigu/exam/service/impl/QuestionServiceImpl.java:256-261 | the top-up query result has distinct ids |
| Popular.RecordView | src/main/java/com/atguigu/exam/service/impl/QuestionServiceImpl.java:276-279 | viewing a question adds 1 to its score (from 0 when absent) and leaves every other score as it was |
| Categories.FillCounts | src/main/java/com/atguigu/exam/service/impl/CategoryServiceImpl.java:163-177 | each category's count is its entry in the count map, or 0 when it has none |
| Categories.ChildIndicesCorrect | src/main/java/com/atguigu/exam/service/impl/CategoryServiceImpl.java:123-124 | the children of a category are exactly the categories whose parent id is its id, in list order |
| Categories.KidsSumIsSumAt | src/main/java/com/atguigu/exam/service/impl/CategoryServiceImpl.java:138-140 | the children's sum the pass computes is the sum of the current counts of exactly those children |
| Categories.RollUpFrame | src/main/java/com/atguigu/exam/service/impl/CategoryServiceImpl.java:132-150 | the single pass has not yet touched a category at a later position, and does not touch it again after its own step |
| Categories.VisitOther | src/main/java/com/atguigu/exam/service/impl/CategoryServiceImpl.java:132-150 | each step of the pass writes only its own category's count |
| Categories.RollUpSpec | src/main/java/com/atguigu/exam/service/impl/CategoryServiceImpl.java:132-150 | after the pass, a category's count is its own count plus, for each child, the child's final count if the child comes earlier in the list and its own count otherwise |
| Categories.RollUpChildrenFirst | src/main/java/com/atguigu/exam/service/impl/CategoryServiceImpl.java:132-150 | when every child is listed before its parent, the count is the own count plus the children's final counts (a full subtree sum) |
| Categories.RollUpTwoLevel | src/main/java/com/atguigu/exam/service/impl/CategoryServiceImpl.java:132-150 | for a category whose children have no children, the count is its own count plus the children's own counts, in any order |
| Categories.RollUpOrderMatters | src/main/java/com/atguigu/exam/service/impl/CategoryServiceImpl.java:132-150 | on a three-level chain the result depends on list order: parent first gives 5, child first gives 10 |
| Categories.BuildTree | src/main/java/com/atguigu/exam/service/impl/CategoryServiceImpl.java:121-160 | the tree has one node per category, in list order |
| Categories.BuildTreeShape | src/main/java/com/atguigu/exam/service/impl/CategoryServiceImpl.java:121-160 | each node's children are exactly the categories naming it as parent, and the roots are exactly the categories with parent id 0 |
| Categories.BuildTreeCounts | src/main/java/com/atguigu/exam/service/impl/CategoryServiceImpl.java:132-150 | each node's count is the one the single pass gives: own count plus the children's counts as the pass saw them |
| Categories.CategoryTree | src/main/java/com/atguigu/exam/service/impl/CategoryServiceImpl.java:46-59 | the category tree has one node per category |
| Categories.CategoryTreeNodes | src/main/java/com/atguigu/exam/service/impl/CategoryServiceImpl.java:46-59 | the nodes are the categories sorted by sort ascending: a permutation of the table, sorted, ties in table order (the model's choice for the order SQL leaves open) |
| Categories.DuplicateError | src/main/java/com/atguigu/exam/service/impl/CategoryServiceImpl.java:75-79 | the duplicate message names the parent; when the parent id does not resolve, building the message is a null dereference |
| Categories.AddCategory | src/main/java/com/atguigu/exam/service/impl/CategoryServiceImpl.java:67-82 | adding fails exactly when a category with the same parent and name exists; otherwise the category is appended with the next id and nothing else changes |
| Categories.AddCategoryValid | src/main/java/com/atguigu/exam/service/impl/CategoryServiceImpl.java:67-82 | adding keeps ids unique |
| Categories.ReplaceCategory | src/main/java/com/atguigu/exam/service/impl/CategoryServiceImpl.java:99 | updateById rewrites only the row with the id |
| Categories.UpdateCategory | src/main/java/com/atguigu/exam/service/impl/CategoryServiceImpl.java:85-100 | updating fails exactly when another category with the same parent has the name; otherwise only the row with the id is rewritten, and an unknown id changes nothing |
| Categories.ReplaceAbsent | src/main/java/com/atguigu/exam/service/impl/CategoryServiceImpl.java:99 | updateById with an unknown id leaves the table as it was |
| Categories.QuestionsIn | src/main/java/com/atguigu/exam/service/impl/CategoryServiceImpl.java:110-112 | the count of questions in a category is zero exactly when no question names it |
| Categories.DropCategoryMembers | src/main/java/com/atguigu/exam/service/impl/CategoryServiceImpl.java:117 | removeById keeps exactly the categories with another id |
| Categories.DeleteCategory | src/main/java/com/atguigu/exam/service/impl/CategoryServiceImpl.java:103-118 | deleting an unknown id is a null dereference, deleting a root (parent id 0) is refused, a category with questions is refused with their count; otherwise exactly that category is removed and nothing else changes |
| Papers.LinkRows | src/main/java/com/atguigu/exam/service/impl/PaperServiceImpl.java:99-101 | one link row per selected question, carrying the paper id, the question id and its score |
| Papers.CreatePaper | src/main/java/com/atguigu/exam/service/impl/PaperServiceImpl.java:73-106 | the new paper is a DRAFT with the next id, question count = number of selected questions, appended to the papers; the existing links are kept and one link per selection follows; no other table changes |
| Papers.CreatePaperTotal | src/main/java/com/atguigu/exam/service/impl/PaperServiceImpl.java:94 | the total score is the sum of the selected scores, whatever order the map hands them out in |
| Papers.CreatePaperEmpty | src/main/java/com/atguigu/exam/service/impl/PaperServiceImpl.java:80-87 | with no selection the paper has count 0, total 0 and no links |
| Papers.CreatePaperAppends | src/main/java/com/atguigu/exam/service/impl/PaperServiceImpl.java:99-104 | the links table gains exactly the link rows of the selection |
| Papers.CreatePaperLinks | src/main/java/com/atguigu/exam/service/impl/PaperServiceImpl.java:99-104 | every selected question is linked to the new paper with its score, and every link of the new paper comes from the selection |
| Papers.CreatePaperLinksOnce | src/main/java/com/atguigu/exam/service/impl/PaperServiceImpl.java:99-104 | each selected question is linked to the new paper exactly once |
| Papers.TotalPermutation | src/main/java/com/atguigu/exam/service/impl/PaperServiceImpl.java:94 | the sum of scores does not depend on the order of the entries |
| Papers.CreatePaperExample | src/main/java/com/atguigu/exam/service/impl/PaperServiceImpl.java:93-94 | selecting two questions worth 5 and 3 gives count 2 and total 8 |
| Papers.TypeRank | src/main/java/com/atguigu/exam/service/impl/PaperServiceImpl.java:113-120 | CHOICE ranks 1, JUDGE 2, TEXT 3 and anything else 4, each rank exactly for its type |
| Papers.LinkedQuestions | src/main/java/com/atguigu/exam/service/impl/PaperServiceImpl.java:55 | the paper's questions are stored questions, at most one per link |
| Papers.DetailPaper | src/main/java/com/atguigu/exam/service/impl/PaperServiceImpl.java:47-70 | the detail fails with not-found exactly when the paper id is unknown; otherwise it returns that paper with one question per resolved link |
| Papers.DetailPaperSorted | src/main/java/com/atguigu/exam/service/impl/PaperServiceImpl.java:64 | the questions are a permutation of the linked questions, sorted by type rank, with equal ranks in link order |
| Papers.DetailPaperGrouped | src/main/java/com/atguigu/exam/service/impl/PaperServiceImpl.java:63-64 | all CHOICE questions come before all JUDGE questions, which come before all TEXT questions |
| Papers.DetailPaperEmpty | src/main/java/com/atguigu/exam/service/impl/PaperServiceImpl.java:57-61 | a paper without links comes back with an empty question list |
| AiGeneration.TypeFragment | src/main/java/com/atguigu/exam/service/impl/KimiAiServiceImpl.java:115-129 | a type name that is not CHOICE, JUDGE or TEXT after trimming adds nothing to the prompt |
| AiGeneration.DifficultyText | src/main/java/com/atguigu/exam/service/impl/KimiAiServiceImpl.java:136-141 | EASY reads 简单, HARD reads 困难, and every other difficulty reads 中等 |
| AiGeneration.BalanceHalves | src/main/java/com/atguigu/exam/service/impl/KimiAiServiceImpl.java:190-195 | the true/false split adds up to the count, differs by at most one, and is even exactly when the count is even |
| AiGeneration.Sections | src/main/java/com/atguigu/exam/service/impl/KimiAiServiceImpl.java:102-198 | the prompt is built from eight sections in a fixed order |
| AiGeneration.PromptHeader | src/main/java/com/atguigu/exam/service/impl/KimiAiServiceImpl.java:105-106 | the prompt starts with the lead sentence, and the requested count reads back from it |
| AiGeneration.UnknownTypesAddNothing | src/main/java/com/atguigu/exam/service/impl/KimiAiServiceImpl.java:111-132 | a type list with no known type name contributes nothing between the label and the line end |
| AiGeneration.PromptJudgeBlock | src/main/java/com/atguigu/exam/service/impl/KimiAiServiceImpl.java:151-157 | whenever the type list mentions JUDGE the prompt contains the judge-balance block |
| AiGeneration.PromptBalance | src/main/java/com/atguigu/exam/service/impl/KimiAiServiceImpl.java:188-196 | the prompt ends with the balance instruction exactly when the type list is JUDGE alone and the count exceeds 1, and with the notes block otherwise |
| AiGeneration.SingleTypeSection | src/main/java/com/atguigu/exam/service/impl/KimiAiServiceImpl.java:111-132 | a single type name yields just its own fragment in the type line |
| AiGeneration.BalanceExamples | src/main/java/com/atguigu/exam/service/impl/KimiAiServiceImpl.java:190-195 | count 4 splits 2/2, count 5 splits 2/3 |
| AiGeneration.ExtractPayload | src/main/java/com/atguigu/exam/service/impl/KimiAiServiceImpl.java:53-58 | extraction fails, carrying the raw reply, exactly when there is no json fence or the last fence does not follow it; otherwise the payload lies between the first json fence and the last fence |
| AiGeneration.FenceGap | src/main/java/com/atguigu/exam/service/impl/KimiAiServiceImpl.java:56-58 | a closing fence after the json fence never overlaps it, so the substring bounds are always in order |
| AiGeneration.ExtractWrapped | src/main/java/com/atguigu/exam/service/impl/KimiAiServiceImpl.java:53-58 | a reply that wraps a payload in one json fence and one closing fence yields that payload |
| AiGeneration.MapChoices | src/main/java/com/atguigu/exam/service/impl/KimiAiServiceImpl.java:79-86 | each JSON choice becomes an import choice with the same content, flag and sort |
| AiGeneration.MapRecord | src/main/java/com/atguigu/exam/service/impl/KimiAiServiceImpl.java:65-91 | a record fails with a null dereference exactly when it is CHOICE without a choices array; otherwise title, type, multi flag, difficulty, score, analysis and answer are copied, the request's category id is set, and choices are present exactly for CHOICE |
| AiGeneration.MapRecords | src/main/java/com/atguigu/exam/service/impl/KimiAiServiceImpl.java:63-93 | mapping succeeds with one record per JSON question, each the mapping of its question, or fails on a question whose mapping fails |
| AiGeneration.MapRecordsFacts | src/main/java/com/atguigu/exam/service/impl/KimiAiServiceImpl.java:63-93 | every mapped record carries the request's category id, and only CHOICE records carry choices |
| AiGeneration.CallWithRetry | src/main/java/com/atguigu/exam/service/impl/KimiAiServiceImpl.java:215-274 | at most three attempts; the result is the content of the first good attempt, every earlier attempt having failed, or the retry error after three failures |
| AiGeneration.FirstGoodSucceeds | src/main/java/com/atguigu/exam/service/impl/KimiAiServiceImpl.java:215-274 | the call succeeds exactly when one of the three attempts returns non-empty content without an error field |
| AiGeneration.Generate | src/main/java/com/atguigu/exam/service/impl/KimiAiServiceImpl.java:40-96 | every generated record carries the request's category id |
| AiGeneration.GenerateFailures | src/main/java/com/atguigu/exam/service/impl/KimiAiServiceImpl.java:44-95 | three failed attempts give the retry error, and a reply without a json fence gives the malformed-reply error carrying the reply |
| Imports.Validate | src/main/java/com/atguigu/exam/controller/QuestionBatchController.java:133-172 | a record is refused for its title exactly when the title is null or blank, and passes exactly when title, type, choices (CHOICE: at least two, one marked correct) or answer (JUDGE/TEXT) are all present |
| Imports.ChoiceAnswerIgnored | src/main/java/com/atguigu/exam/controller/QuestionBatchController.java:148-169 | the answer of a CHOICE record does not affect the verdict |
| Imports.ValidateOrderType | src/main/java/com/atguigu/exam/controller/QuestionBatchController.java:139-145 | a blank type, or an unknown type, is reported exactly when the title passed |
| Imports.ValidateOrderChoices | src/main/java/com/atguigu/exam/controller/QuestionBatchController.java:148-162 | the choice problems are reported in order: none, exactly one, no correct one, each only for a CHOICE record with a title |
| Imports.ValidateOrderAnswer | src/main/java/com/atguigu/exam/controller/QuestionBatchController.java:163-169 | a missing answer is reported exactly for a titled JUDGE or TEXT record whose answer is null or blank |
| Imports.Message | src/main/java/com/atguigu/exam/controller/QuestionBatchController.java:136-167 | every problem message starts with the record number prefix |
| Imports.MessageIndex | src/main/java/com/atguigu/exam/controller/QuestionBatchController.java:136-167 | the record number reads back from the message |
| Imports.ValidateExamples | src/main/java/com/atguigu/exam/controller/QuestionBatchController.java:133-172 | blank title, unknown type, no correct choice and a blank judge answer each give their own problem |
| Banners.UploadImage | src/main/java/com/atguigu/exam/service/impl/BannerServiceImpl.java:34-57 | an upload is stored exactly when it is non-empty, typed image/..., and at most 5 MiB; each refusal reason holds exactly in its case, checked in that order |
| Banners.UploadBound | src/main/java/com/atguigu/exam/service/impl/BannerServiceImpl.java:48 | a file of exactly 5242880 bytes is stored and one of 5242881 bytes is refused |
| Banners.WithDefaults | src/main/java/com/atguigu/exam/service/impl/BannerServiceImpl.java:71-77 | an unset active flag becomes true and an unset order 0; set values and other fields are kept |
| Banners.WithDefaultsIdempotent | src/main/java/com/atguigu/exam/service/impl/BannerServiceImpl.java:71-77 | defaulting a defaulted banner changes nothing |
| Banners.AddBanner | src/main/java/com/atguigu/exam/service/impl/BannerServiceImpl.java:65-86 | a failed save is reported and adds nothing; a good one appends the defaulted banner |
| Banners.Merge | src/main/java/com/atguigu/exam/service/impl/BannerServiceImpl.java:95 | updateById writes the set fields over the stored row and keeps its id |
| Banners.UpdateBanner | src/main/java/com/atguigu/exam/service/impl/BannerServiceImpl.java:94-99 | the update fails exactly when no row has the id; otherwise only that row is merged |
| Banners.UpdateBannerIdempotent | src/main/java/com/atguigu/exam/service/impl/BannerServiceImpl.java:94-99 | applying the same update twice gives what applying it once gives |
| Strings.Trim | src/main/java/com/atguigu/exam/controller/QuestionBatchController.java:135 | trim yields "" exactly for blank strings, and otherwise neither end is whitespace |
| Strings.TrimIsInfix | src/main/java/com/atguigu/exam/controller/QuestionBatchController.java:135 | the trimmed string is one contiguous piece of the input with only whitespace before and after it |
| Strings.IndexOf | src/main/java/com/atguigu/exam/service/impl/KimiAiServiceImpl.java:53 | indexOf: -1 exactly when there is no occurrence, otherwise the first occurrence |
| Strings.LastIndexOf | src/main/java/com/atguigu/exam/service/impl/KimiAiServiceImpl.java:54 | lastIndexOf: -1 exactly when there is no occurrence, otherwise the last occurrence |
| Strings.IntToStringRoundTrip | src/main/java/com/atguigu/exam/service/impl/KimiAiServiceImpl.java:105 | a decimal count reads back to the same number |
| Strings.JavaSplitJoin | src/main/java/com/atguigu/exam/service/impl/KimiAiServiceImpl.java:112 | `split` on one separator char returns the string whole when the char is absent; otherwise joining the pieces gives back the string less a run of trailing separators, and the last piece is not empty |
| StableSort.SortByCorrect | src/main/java/com/atguigu/exam/service/impl/PaperServiceImpl.java:64 | the list sort used by the services: sorted by the key, a permutation, and stable |

## Left out

- Redis, MinIO, the HTTP client, and the JSON parser are parameters. The ranking board is a sequence in descending score order. The object store is a function from the upload to a URL. The AI reply is a sequence of per-attempt outcomes, and JSON parsing of the payload is an oracle (`AiGeneration.Parsed`).
- Thread creation, `Thread.sleep`, logging and timeouts are not modelled. The view increment that `customDetailQuestion` starts on a background thread is the separate function `Popular.RecordView`.
- The mapper XML queries are not part of this model, namely `customGetById`, `customQueryQuestionListByPaperId` and `getCategoryQuestionCount`.
  - The detail question is the stored row with its answer and choices attached as `Questions.Hydrate` attaches them.
  - A paper's questions are the join of its links with the question table, in link order. A link to a missing question contributes nothing.
  - The category count query is a given map from category id to count.
- SQL leaves ties in `ORDER BY create_time DESC` (the popular top-up) and in `ORDER BY sort` (the category tree, where equal `sort` values are common because the default is 0) open. The model breaks them in table order.
- What MyBatis-Plus renders for `notIn` with an empty list is library behaviour outside this model. The model treats an empty exclusion list as excluding nothing.
- These null request fields are left out; the model's fields are always present:
  - a null `size` for the popular list, which is unboxed before any work is done;
  - a null score in a paper selection, which fails the total-score sum before anything is saved;
  - a null element in a choice list, which fails inside the save or update transaction and so changes nothing;
  - a null count or topic in the AI request, which the prompt's first line prints as the text `null`; a null count then fails with a null dereference only when the type list is exactly `JUDGE`, where it is compared with 1;
  - a null type on a stored question, which fails in `typeToInt` only when a paper's detail sorts two or more questions.
- Paper ids are `Long` values narrowed with `intValue()` for the link rows. Ids are unbounded naturals here, so the narrowing does not arise. Scores are integers rather than `BigDecimal` values, and cache scores are their `intValue`.
- Entity fields that no modelled operation reads are dropped, for instance timestamps other than `createTime` and the user fields. The banner entity is not part of this model: a banner has an id, a title, an image URL, an active flag and an order.
- AiGeneration.PromptJudgeBlock: states only that the judge block appears when the type list mentions JUDGE. The converse does not hold of the prompt string, because the topic or the requirements may contain the same text.
- Popular.PopularBound: states the length bound only for a size of at least 1. Size 0 is covered by `Popular.PopularZeroSize`. A negative size yields a prefix of the board, which the model computes but no lemma bounds.
- Popular.FindPopular: states when the list fails and, on success, the length and membership of the hydrated list. The order of the list is stated on the underlying `PopularList` by the other `Popular` lemmas. The contents of each entry are stated on hydration by `Questions.Hydrate`, which `Popular.FindPopularAgrees` ties to this function.
- Questions.ReplaceQuestion: `updateById` skips a null field of the entity and keeps the stored value. The model's update carries every question field except `createTime`, which it treats as null and so keeps the stored value; any other null skip is not modelled. The same holds for the answer object's id.
- Categories.ReplaceCategory: as for questions, the null skip of `updateById` is not modelled; the model's category carries every field.
- Questions.CreateQuestion: the question, choice and answer ids on create are assumed null, so every new row takes the next counter value. With auto-increment ids an insert keeps an id the caller supplies, and `customSaveQuestion` does not clear these ids; a supplied id, kept or clashing with a stored row, is not modelled.
- Categories.AddCategory: as for questions, the category id on create is assumed null and a supplied id is not modelled.
- Questions.DetailQuestion: a question with two answer rows fails with the duplicate key of `Questions.Hydrate`. What the XML join of `customGetById` does in that case is not modelled.
- Banners.AddBanner: the row is inserted under the id the banner carries. With auto-increment ids a banner without an id gets the next counter value from the database, and that case is not modelled.
- AiGeneration.Generate: states only that every record carries the category id and the failure modes in `GenerateFailures`. The per-record mapping is stated by `MapRecords` and `MapRecordsFacts`.
- Banners.Merge: the title and the image URL are always written over. The entity's nullable descriptive fields are not modelled.
- The category list call `findCategoryList` and the question paging `customPageJavaService` use the same steps as the tree and the popular list. They are not modelled separately.

## Findings

| source | as written | input that shows it | evidently intended | confidence | as-written member | corrected member |
|---|---|---|---|---|---|---|
| src/main/java/com/atguigu/exam/service/impl/QuestionServiceImpl.java:307-310 | The fill step looks up the choice group of a CHOICE question and sorts it. A question with no choice rows has no group, so `null.sort(...)` throws. | Save a CHOICE question with an empty choice list, which `customSaveQuestion` accepts (lines 97-120). Then hydrate it, for instance through the popular list. | The question comes back with an empty choice list. | high, not executed | Questions.HydrateAsWritten, Questions.EmptyChoiceQuestionBreaksHydration, Popular.FindPopular | Questions.Hydrate, Popular.FindPopularIntended |
