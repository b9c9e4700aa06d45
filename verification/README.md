# Model of ycmd's completion engine

ycmd answers completion requests for an editor. Its C++ core (`cpp/ycm`) decodes UTF-8, normalises
it, cuts it into grapheme clusters, matches a query as a subsequence of each candidate, scores and
ranks the matches and keeps the best. Its Python layer wraps each request in an object with lazily
computed fields and remembers the last list of completions. This project models both in Dafny and
proves what the code promises of them, and where a promise does not hold, exactly when it does.

## Layout

| file | models |
|---|---|
| `Basics.dfy` | Option and Result, flattening of lists, the lexicographic order |
| `Utf8.dfy`, `BinaryEncoding.dfy` | the decoder, and the table generator's encoder on strings of binary digits |
| `UnicodeTable.dfy`, `CodePoints.dfy` | the generated sparse table, its binary search, code point objects |
| `Graphemes.dfy`, `Segmentation.dfy` | the rules of section 3.1.1 of UAX #29 and the one-pass loop |
| `Decomposition.dfy`, `Normalization.dfy` | canonical decomposition and `NormalizeInput` |
| `CanonicalOrdering.dfy` | the Canonical Ordering Algorithm, in place on an array |
| `Characters.dfy`, `Words.dfy`, `AsciiWords.dfy`, `Folding.dfy`, `MatchingCases.dfy` | characters, smart matching, words, candidates, the byte-set prefilter, word boundaries in ASCII, equal folds, and matching on particular texts |
| `Embedding.dfy`, `Lcs.dfy`, `Ranking.dfy`, `AsciiRanking.dfy` | the greedy matcher, the two-row dynamic program, results and their order |
| `PartialSorting.dfy`, `Filtering.dfy`, `Determinacy.dfy` | the partial sort, `FilterAndSortCandidates`, and when a call has one result |
| `Repositories.dfy`, `IdentifierDatabases.dfy` | interning, and the identifier database against a plain history |
| `LineOffsets.dfy`, `RequestWrapping.dfy`, `Completions.dfy` | offset conversion, the request object, request equality and the completion cache |

## Conventions

- Bytes are the integers 0 to 255; a code point is anything the encoder accepts, at most 21 binary
  digits. A thrown exception is a `None`, a `Failure` or a named outcome.
- The Unicode data is a parameter: every list of rows. What a theorem needs of it is a named
  predicate: `WellFormed` (ascending rows spelled by the encoder), `ComputedNormals` (normal forms are
  the decompositions computed from an acyclic mapping in which jamo do not decompose),
  `ConsistentRows` (InCB Extend and Linker only on break classes Extend and ZWJ, InCB Consonant only
  on class Other), `AsciiRows`. The engine's methods get the generated table; the rows it was
  generated from are a ghost parameter.
- The candidate repository calls its constructor as a function, `build`. `Builds` says that each
  value is what `MakeCandidate` makes of the text.
- `std::sort` is not stable, so a canonical ordering is a relation (`CanonicallyOrders`) and a
  ranked list is determined up to ties (`IsTopK`). The standard algorithms are short methods whose
  contracts promise no more than the C++ standard does.
- The regular expressions for identifiers, the semantic triggers, a completer subclass and the
  final filter are function parameters.

## Where the code and its promise part

- The loop's emoji flag survives more than the one joiner GB11 allows, so the loop can fail to break
  between ZWJ and ExtPict. `SegmentationAgreement` gives the exact condition, `StaleFlagWitness` a
  sequence, `LoopMeetsRules` a class of sequences on which the two agree.
- The row of U+0000 is stored as an empty C string and is never found; `TableAgreement` says that
  this is the only row lost, and only if it is not all defaults.
- An unstable sort leaves a choice where one run holds different code points of one combining
  class; `OrderingUniqueness` is the exact condition for a list of code points, `WordDeterminedExact`
  for the word of a text.
- The byte-set test can reject a match when equal folded forms have different bases, as for a lone
  U+0345; `PrefilterExact` is the exact condition, `PrefilterLosesMatch` a family of cases,
  `IotaLost` one of them.
- For the same reason smart matching is not transitive on all characters:
  `WordMatchTransitiveExact` is the exact condition, `TransitivityFails` a family of chains.
- Assigning a `start_column` inside a character raises after the field is overwritten, and offsets
  beyond the line do not convert back; `StartOffsetsConvert` is exact.
- The completion cache is invisible exactly when remembered answers serve equal requests
  (`CacheTransparency`).
- The ranking is a strict weak order only because word boundary matches never outnumber the query
  (`BoundNeeded`).

## Model

| member | source | states |
|---|---|---|
| Utf8.GetCodePointLength | cpp/ycm/CodePoint.cpp:30-48 | the mask tests announce 1 to 4 bytes by the lead byte's range and reject every other lead byte |
| Utf8.BreakIntoCodePoints | cpp/ycm/CodePoint.cpp:99-113 | the loop computes Split, with the same two errors; it rejects every text that begins with a byte 0x80 to 0xBF or 0xF8 to 0xFF |
| Utf8.Factorisation | cpp/ycm/CodePoint.cpp:99-113 | decoding succeeds with a list of pieces if and only if they are well-led pieces of 1 to 4 bytes that concatenate to the text |
| Utf8.SplitFailure | cpp/ycm/CodePoint.cpp:99-109 | decoding fails with an error if and only if well-led pieces are followed by a bad lead byte, or by a truncated piece, accordingly |
| Utf8.SplitEncodeAll | update_unicode.py:118-134 | the decoder undoes the encoder on every list of code points (section 3 of RFC 3629) |
| Utf8.EncodeOrder | update_unicode.py:118-134 | byte order of encodings is code point order (section 1 of RFC 3629) |
| Utf8.EncodeInjective | update_unicode.py:118-134 | different code points have different encodings |
| BinaryEncoding.EncoderBytes | update_unicode.py:118-134 | the sliced and padded digit string is the octets of the UTF-8 bytes, and the encoder raises exactly above 21 digits |
| UnicodeTable.GetCodePoints | update_unicode.py:484-504 | the loop lists, in order, the rows that are not all defaults |
| UnicodeTable.ListedMeaning | update_unicode.py:484-492 | a row is left out exactly when its three derived forms are its spelling and it has no property |
| UnicodeTable.GeneratedRows | update_unicode.py:484-504 | the table holds exactly the stored forms of the rows that are not all defaults |
| UnicodeTable.GeneratedSorted | update_unicode.py:446-505 | the generated table is sorted by spelling |
| UnicodeTable.FindCodePoint | cpp/ycm/CodePoint.cpp:51-75 | the binary search returns the row spelled text, or the default where there is none |
| UnicodeTable.SparseTable | cpp/ycm/CodePoint.cpp:51-75 | for every spelling the search in the sparse table gives what the whole database gives |
| UnicodeTable.TableAgreement | update_unicode.py:484-504 | a code point's looked-up properties are its database row if and only if it is not U+0000 or that row is all defaults |
| UnicodeTable.AbsentCodePoint | cpp/ycm/CodePoint.cpp:74 | a code point absent from the database keeps its spelling and has no property |
| CodePoints.DecodeText | cpp/ycm/CodePoint.cpp:77-113 | decoding by search in the sparse table gives every code point of the text what the whole database says of it |
| CodePoints.DecodedFields | cpp/ycm/CodePoint.cpp:84-96 | each field of a code point object is the database field of the same name |
| Decomposition.HangulRoundTrip | update_unicode.py:368-379 | a Hangul syllable decomposes into two or three jamo that compose it again |
| Decomposition.HangulMeaning | update_unicode.py:368-379 | U+AC00 to U+D7A3, and no other code point, decompose by arithmetic into jamo from U+1100, U+1161 and U+11A7 |
| Decomposition.ComputeDecomposition | update_unicode.py:385-399 | the recursive loop computes Decompose, KeyError included, and terminates on every acyclic database |
| Decomposition.DecomposeIsNormalForm | update_unicode.py:382-399 | Decompose returns a list if and only if rewriting by the rules reaches that list and no rule applies to it |
| Decomposition.DecomposeAtomic | update_unicode.py:385-399 | nothing in a decomposition decomposes further |
| Decomposition.DecomposeIdempotent | update_unicode.py:385-399 | decomposing a decomposition again changes nothing |
| Decomposition.RewritingKeepsDecomposition | update_unicode.py:385-399 | one rewriting step anywhere in a list leaves its decomposition as it was |
| Normalization.NormalizeInput | cpp/ycm/Character.cpp:105-113 | the loop concatenates the normal forms of the code points, or fails as decoding does |
| Normalization.NormalizeIdempotent | cpp/ycm/Character.cpp:105-113 | normalising twice is normalising once, for every byte string that decodes |
| Normalization.WordCharacters | cpp/ycm/Character.cpp:68-71 | the clusters of a text concatenate to its normalised form, and each meets the assertion of CanonicalDecompose |
| CanonicalOrdering.SortRange | cpp/ycm/Character.cpp:56 | a range is sorted by combining class, permuted, the rest untouched; no stability |
| CanonicalOrdering.CanonicalSort | cpp/ycm/Character.cpp:35-62 | the array becomes a canonical ordering of its old contents: starters stay, runs are permuted, no pair is reorderable |
| CanonicalOrdering.OrderingUniqueness | cpp/ycm/Character.cpp:35-62 | a canonical ordering is the only one if and only if no run mixes different code points of one class |
| CanonicalOrdering.OrderingDetermined | cpp/ycm/Character.cpp:35-62 | two orderings of an unambiguous input are equal |
| CanonicalOrdering.OrderingUndetermined | cpp/ycm/Character.cpp:35-62 | an ambiguous input has a second ordering, so an unstable sort has a choice |
| CanonicalOrdering.EquivalentInputs | cpp/ycm/Character.cpp:33-35 | inputs joined by any series of exchanges of reorderable pairs have the same orderings (D108, D109 of section 3.11 of The Unicode Standard) |
| CanonicalOrdering.EquivalentOrderedAlike | cpp/ycm/Character.cpp:33-35 | such inputs are ordered alike when one of them determines its ordering |
| Graphemes.GraphemeFlagsStep | cpp/ycm/Word.cpp:101-257 | the emoji flag says an ExtPict started a tail nothing has ended; the RI flag is the parity of the current run |
| Graphemes.IndicFlagsStep | cpp/ycm/Word.cpp:41-99 | the two conjunct flags say that the Extend/Linker run follows a Consonant and whether a Linker lies before its last element |
| Graphemes.LoopStep | cpp/ycm/Word.cpp:287-326 | one turn of the loop keeps the meaning of all four flags and decides the break as LoopBreaks says |
| Graphemes.LoopAgainstRules | cpp/ycm/Word.cpp:41-330 | with the flags the loop then holds, the two break tests never break where UAX #29 forbids it, and depart from it only between ZWJ and ExtPict with the flag outliving GB11 |
| Graphemes.LoopMeetsRules | cpp/ycm/Word.cpp:41-330 | where no ZWJ is followed by Extend, ZWJ or SpacingMark, the loop breaks exactly where GB3 to GB13, GB9c and GB999 do |
| Graphemes.BreakByClasses | cpp/ycm/Word.cpp:101-257 | what the rules decide for each pair of break classes, in no order of precedence; only GB9c, GB11 and GB12 look back |
| Graphemes.SegmentationAgreement | cpp/ycm/Word.cpp:194-209 | the loop agrees with UAX #29 on a sequence if and only if the emoji flag is nowhere stale |
| Graphemes.StaleFlagWitness | cpp/ycm/Word.cpp:194-209 | ExtPict ZWJ ZWJ ExtPict is broken by UAX #29 but not by the loop |
| Graphemes.FlagPairIsOddRun | cpp/ycm/Word.cpp:223-241 | GB12 and GB13 join an indicator exactly to an odd run |
| Segmentation.TestBreak | cpp/ycm/Word.cpp:289-320 | the two tests together break exactly where LoopBreaks says |
| Segmentation.BreakCodePointsIntoCharacters | cpp/ycm/Word.cpp:262-330 | the loop returns the normal forms of the clusters |
| Segmentation.ClustersPartition | cpp/ycm/Word.cpp:262-330 | clusters are nonempty, concatenate to the text and begin exactly where the loop breaks |
| Segmentation.ClustersAreGraphemes | cpp/ycm/Word.cpp:259-261 | on sequences whose joiners end their runs, clusters begin exactly where UAX #29 breaks |
| Characters.MakeCharacter | cpp/ycm/Character.cpp:75-102 | the character is assembled from some canonical ordering of the cluster; it fails exactly where the cluster does not decode |
| Characters.AppendCodePoints | cpp/ycm/Character.cpp:84-101 | each field is what its definition over the whole sequence says: bases leave out attached code points, flags are quantified over all |
| Characters.BuiltFields | cpp/ycm/Character.cpp:84-101 | every field of a built character written out over the cluster in canonical order: the base leaves out the folds of code points of class Prepend, Extend and SpacingMark, and the base flag says there are none |
| Characters.EqualNormalsEqualCharacters | cpp/ycm/Character.h:75-77 | characters of normalised clusters with equal normal forms are equal in every field |
| MatchingCases.MatchingTable | cpp/ycm/Character.h:87-97 | the documented table for the characters built of a letter, its accented form and their capitals, for every letter and every combining or spacing mark whose rows say so |
| Characters.MatchesTransitive | cpp/ycm/Character.h:87-97 | smart matching is transitive on coherent characters |
| Characters.MatchesShareBase | cpp/ycm/Character.h:92-97 | matching coherent characters share their base |
| Words.ComputeBytesPresent | cpp/ycm/Word.cpp:342-348 | the loop sets exactly the bytes that occur in the base of some character |
| Words.MakeWord | cpp/ycm/Word.cpp:351-355 | the word holds its text, a character for each cluster and their bytes; which texts fail, and how; with computed normal forms exactly those that do not decode |
| Words.MakeCandidate | cpp/ycm/Candidate.cpp:70-75 | the candidate holds the word, its swapped text, its word boundaries and its lowercase flag; with computed normal forms it fails exactly where its text does not decode |
| Words.ComputeWordBoundaryChars | cpp/ycm/Candidate.cpp:30-55 | the result lists, in order, the first character unless it is punctuation, every uppercase one after one that is not, every letter after punctuation, and no others |
| Words.BoundariesListed | cpp/ycm/Candidate.cpp:30-55 | the same of the recursive list, with the positions it is taken from |
| AsciiWords.PrintableBoundaries | cpp/ycm/Candidate.cpp:30-55 | read off the bytes of a printable ASCII candidate: its boundaries are the first byte unless punctuation, each capital after a byte that is none, each letter after punctuation |
| Words.ComputeCaseSwappedText | cpp/ycm/Candidate.cpp:23-27 | the swapped cases concatenated in order |
| Words.ComputeTextIsLowercase | cpp/ycm/Candidate.cpp:58-67 | true exactly when no character is uppercase |
| AsciiWords.PrintableLowercase | cpp/ycm/Candidate.cpp:58-67 | a printable ASCII candidate counts as lowercase exactly when no byte is a capital |
| Words.EmptyWord | cpp/ycm/Word.h:66-68 | a word is empty exactly when its text is |
| Words.SpellingsDecode | cpp/ycm/Word.cpp:334-339 | with computed normal forms every character of a decodable text decodes |
| Words.PrefilterSound | cpp/ycm/PythonSupport.cpp:77 | a candidate in which the query embeds passes the byte test, when matches keep bytes |
| Words.PrefilterExact | cpp/ycm/Word.h:60-64 | over any alphabet the byte test loses no match if and only if characters with one fold, the first not uppercase, or one normal form keep the bytes of the first base |
| MatchingCases.PrefilterLosesMatch | cpp/ycm/Word.h:60-64 | for every lowercase letter and mark that fold alike, the candidate spelled by the mark matches the query spelled by the letter and is rejected by the byte test |
| MatchingCases.IotaLost | cpp/ycm/PythonSupport.cpp:77 | so the query U+03B9 loses the candidate U+0345 |
| Words.CoherentKeepsBytes | cpp/ycm/Character.h:92-97 | coherent words keep bytes |
| Words.BuiltWordsCoherent | cpp/ycm/Character.cpp:75-102 | words built from computed normal forms are coherent as soon as equal folds share base and base flag |
| Words.WordMatchTransitive | cpp/ycm/Candidate.cpp:99-130 | embedding is transitive on coherent words |
| Words.WordMatchReflexive | cpp/ycm/Candidate.cpp:99-130 | every word embeds in itself |
| Characters.BuiltBased | cpp/ycm/Character.cpp:92-100 | a built character is a base character exactly when its base is its whole fold, where no code point folds to nothing |
| Words.SmartTransitiveExact | cpp/ycm/Character.h:87-97 | over any alphabet of characters such as are built, smart matching is transitive if and only if, wherever a marked lowercase character folds as another does on a different base, no plain lowercase letter has its base and no marked one the base of a plain other |
| Words.SmartTransitiveWithBases | cpp/ycm/Character.h:87-97 | where every marked lowercase character has a plain letter on its base, it is transitive if and only if such characters share their base with whatever folds alike |
| Words.WordMatchTransitiveExact | cpp/ycm/Candidate.cpp:99-130 | the same of matching between words over the alphabet |
| MatchingCases.TransitivityFails | cpp/ycm/Character.h:87-97 | for every lowercase letter and mark that fold alike, and every attached starter, three words of which the first matches the second and that the third, but not the first the third |
| MatchingCases.IotaChain | cpp/ycm/Character.h:87-97 | so U+03B9, U+03B9 U+FE0F and U+0345 U+FE0F |
| Embedding.GreedyComplete | cpp/ycm/Candidate.cpp:78-131 | the scan succeeds exactly when some order-preserving embedding exists, for any match relation |
| Embedding.GreedyLeast | cpp/ycm/Candidate.cpp:109-128 | the scan's positions are pointwise least among all embeddings |
| Embedding.GreedySumLeast | cpp/ycm/Candidate.cpp:116 | no embedding has a smaller sum of positions |
| Embedding.GreedyPrefix | cpp/ycm/Candidate.cpp:120-123 | the last position is the query length less one exactly when the query matches the candidate's first characters one by one |
| Embedding.ExtensionShrinks | cpp/ycm/Candidate.cpp:99-130 | what matches a longer query matches the query it extends |
| Embedding.EmbeddableTransitive | cpp/ycm/Candidate.cpp:99-130 | embeddings compose wherever the match relation is transitive |
| Lcs.LongestCommonSubsequenceLength | cpp/ycm/Result.cpp:25-51 | the two rolling rows compute the full table's last entry, whichever argument is longer |
| Lcs.LcsIsMaximum | cpp/ycm/Result.cpp:25-51 | that entry is the length of some common subsequence, given by increasing positions in both lists with equal bases, and of none longer |
| Lcs.LcsFull | cpp/ycm/Result.cpp:100-101 | it is the query length exactly when increasing positions of the other list have the bases of the query |
| Lcs.TableSymmetric | cpp/ycm/Result.cpp:27-28 | exchanging the arguments changes nothing |
| Lcs.TableAtMost | cpp/ycm/Result.cpp:25-51 | it exceeds neither length |
| Ranking.QueryMatchResult | cpp/ycm/Candidate.cpp:78-131 | the scan with its counters computes ResultOf |
| Ranking.MakeResult | cpp/ycm/Result.cpp:56-68 | the constructor sets the features, leaving them unset for an empty query or candidate |
| Ranking.MatchesIffEmbeddable | cpp/ycm/Candidate.cpp:78-131 | a nonempty query gives a result exactly when it embeds in the candidate |
| Ranking.MatchMeaning | cpp/ycm/Candidate.cpp:78-131 | that is, when increasing positions of the candidate hold characters its characters match |
| Ranking.EmptyQuery | cpp/ycm/Candidate.cpp:91-93 | the empty query matches every candidate, all features unset |
| Ranking.ScanSum | cpp/ycm/Candidate.cpp:116 | the result's index sum is attained by an embedding and undercut by none |
| Ranking.ScanPrefix | cpp/ycm/Result.h:69-71 | the prefix flag says that the query matches the candidate's first characters one by one |
| Ranking.BaseFeatures | cpp/ycm/Result.cpp:143-153 | first-character flag by equal bases, and word boundary count, bounded by both lengths and full exactly when increasing positions of the boundaries have the bases of the query |
| Ranking.LessIsKeyOrder | cpp/ycm/Result.cpp:71-140 | for results of one query the ten criteria are one lexicographic comparison of keys |
| Ranking.LessIrreflexive | cpp/ycm/Result.cpp:71-140 | no result is ranked before itself |
| Ranking.LessTransitive | cpp/ycm/Result.cpp:71-140 | the ranking is transitive on results of one query |
| Ranking.TiesTransitive | cpp/ycm/Result.cpp:71-140 | so is being tied |
| Ranking.ResultsBounded | cpp/ycm/Result.cpp:151-152 | every result's word boundary matches are at most the query length |
| Ranking.BoundNeeded | cpp/ycm/Result.cpp:100-108 | without that bound three results can rank in a circle |
| Ranking.DistinctTextsRanked | cpp/ycm/Result.cpp:137-139 | results whose swapped texts differ are never tied |
| Determinacy.WordDeterminedExact | cpp/ycm/Character.cpp:35-62 | with computed normal forms a text determines its word if and only if no character has a run that mixes different code points of one combining class |
| Determinacy.CandidateDetermined | cpp/ycm/Candidate.cpp:70-75 | such a text determines its candidate |
| Determinacy.ListDetermined | cpp/ycm/PythonSupport.cpp:57-101 | two calls for a determined query, on determined texts or on shared candidates, agree in word, candidates, ranking and list when the candidates that pass have distinct swapped texts |
| Determinacy.RepositoryCandidates | cpp/ycm/PythonSupport.cpp:31-52 | calls on one repository share their candidates |
| Determinacy.AnswerDetermined | cpp/ycm/IdentifierDatabase.cpp:113-159 | two answers to a determined query agree when the texts that pass have distinct swapped texts |
| AsciiRanking.AsciiCandidate | cpp/ycm/Candidate.cpp:23-27 | an ASCII candidate's swapped text is its text with the case of each letter swapped |
| AsciiRanking.SwapCaseMeaning | cpp/ycm/Candidate.cpp:23-27 | the swap exchanges A to Z with a to z, keeps every other byte and undoes itself |
| AsciiRanking.AsciiDetermined | cpp/ycm/Character.cpp:35-62 | ASCII texts determine their words |
| AsciiRanking.AsciiTextsRanked | cpp/ycm/Result.cpp:137-139 | of two candidates with different ASCII texts one is always ranked before the other |
| AsciiRanking.AsciiListUnique | cpp/ycm/PythonSupport.cpp:57-101 | for an ASCII query and ASCII texts, those over-long aside, any two calls of FilterAndSortCandidates return the same list when the texts that pass are distinct, whatever words and candidates they built and whichever sorting branch they took |
| AsciiRanking.AsciiAnswerUnique | cpp/ycm/IdentifierDatabase.cpp:113-159 | for an ASCII query, when the known texts that pass are ASCII, any two answers are the same, whatever word was built and whatever the iteration order |
| PartialSorting.PartialSort | cpp/ycm/Utils.h:102-138 | both branches keep, in order, the k first elements when 0 < k <= n, all n otherwise |
| PartialSorting.TopKUpToTies | cpp/ycm/Utils.h:122-132 | any two such results agree position by position up to ties |
| PartialSorting.TopKUnique | cpp/ycm/Utils.h:122-132 | where different elements are never tied the result is unique, whichever branch computes it |
| Filtering.BeforeIsStrictWeakOrder | cpp/ycm/Result.cpp:71-140 | on results of one query the comparison is a strict weak order, as the sorting algorithms require |
| Filtering.CandidatesFromObjectList | cpp/ycm/PythonSupport.cpp:31-52 | the interned candidates are those of the clipped texts, one for equal texts; it fails exactly where one of the texts does not decode |
| Filtering.RankCandidates | cpp/ycm/PythonSupport.cpp:69-89 | the loop and the partial sort return the top k of the results of the candidates that pass |
| Filtering.FilterAndSortCandidates | cpp/ycm/PythonSupport.cpp:57-101 | the original objects at the positions so ranked, for the word of the query and the candidates of the texts; failure exactly where a clipped text or the query does not decode |
| Filtering.BuiltComparable | cpp/ycm/Character.cpp:75-102 | candidates and queries built from computed normal forms meet the hypothesis of the next two rows as soon as equal folds share base and base flag |
| Filtering.PassesIffEligible | cpp/ycm/PythonSupport.cpp:77-83 | the three tests pass exactly the nonempty candidates in which the query embeds |
| Filtering.RankingMeaning | cpp/ycm/PythonSupport.cpp:57-101 | distinct positions of eligible candidates, k of the m there are when 0 < k <= m and all m otherwise, in order, none omitted ranked before one kept |
| Filtering.FilteredMeaning | cpp/ycm/PythonSupport.cpp:57-101 | the same of a call on objects and a query text, when equal folds share their base between the query and each candidate: those returned are at distinct positions the best of the m objects whose text is of 1 to 80 bytes and embeds the query, in order, k of them when 0 < k <= m and all m otherwise |
| Folding.FoldsShareBaseInPlace | cpp/ycm/Character.cpp:84-101 | equal folds share base and base flag between the words of two texts whose normalised code points all fold to code points that are attached exactly where they are |
| Filtering.RankingUnique | cpp/ycm/PythonSupport.cpp:88 | when the candidates that pass have distinct swapped texts the list is the only one possible |
| Repositories.Repository.GetElement | cpp/ycm/Repository.h:79-90 | the object stored for the clipped string, built once; a failed build leaves a null entry |
| Repositories.Repository.GetElements | cpp/ycm/Repository.h:68-96 | output i is the object for input i; the map only grows and stored objects stay |
| Repositories.ClipMeaning | cpp/ycm/Repository.h:77-80 | only the repository of candidates clips, and only texts above 80 bytes, to the empty text |
| Repositories.InterningOverRuns | cpp/ycm/Repository.h:68-96 | over every run equal strings get the same object, different strings different ones, each built from its own |
| IdentifierDatabases.HistoryNext | cpp/ycm/IdentifierDatabase.cpp:81-110 | how one operation changes the plain history |
| IdentifierDatabases.IdentifierDatabase.AddSingleIdentifier | cpp/ycm/IdentifierDatabase.cpp:81-99 | on success the text is known for its file from then on, over-long ones as empty, and everything known before still is; storage still is what the history says; a text that does not decode, and no other, records nothing |
| IdentifierDatabases.IdentifierDatabase.RecreateIdentifiers | cpp/ycm/IdentifierDatabase.cpp:174-191 | on success the file has exactly the texts given and other files keep theirs; it fails exactly where a text does not decode |
| IdentifierDatabases.IdentifierDatabase.RecreateFiles | cpp/ycm/IdentifierDatabase.cpp:72-76 | the same for the files of one filetype |
| IdentifierDatabases.IdentifierDatabase.RecreateAllIdentifiers | cpp/ycm/IdentifierDatabase.cpp:67-78 | in any iteration order it succeeds if and only if every listed text decodes; the files done, all of them on success, end with exactly their listed texts, every other file with its old ones |
| IdentifierDatabases.IdentifierDatabase.ScanFile | cpp/ycm/IdentifierDatabase.cpp:138-153 | one file's candidates join the results, each text once |
| IdentifierDatabases.IdentifierDatabase.ResultsForQueryAndType | cpp/ycm/IdentifierDatabase.cpp:113-159 | for the word of the query, the top k of the results of exactly the texts the history knows for the filetype; failure exactly where the filetype is known and the query does not decode |
| IdentifierDatabases.AnswersAgree | cpp/ycm/IdentifierDatabase.cpp:137-158 | answers agree place by place up to rank ties whatever the iteration order, and exactly where the texts that pass have distinct swapped texts |
| IdentifierDatabases.AnswerMeaning | cpp/ycm/IdentifierDatabase.cpp:113-159 | an answer holds k of the m known texts that match when 0 < k <= m and all m otherwise, each once, in order, and omits none ranked before one it holds |
| IdentifierDatabases.AnswerForTexts | cpp/ycm/IdentifierDatabase.cpp:113-159 | the same of an answer to a query text, when equal folds share their base between the query and each known text, in terms of the known texts that are not empty and embed the query |
| LineOffsets.ToUnicodeIff | ycmd/utils.py:115-123 | strict decoding succeeds with a string exactly on that string's encoding |
| LineOffsets.OffsetMeaning | ycmd/utils.py:156-183 | the offset k + 1 of a code point and the byte offset just after the first k code points convert to each other |
| LineOffsets.CodepointRoundTrip | ycmd/utils.py:156-183 | a code point offset of the line survives conversion to bytes and back |
| LineOffsets.ByteRoundTrip | ycmd/utils.py:156-183 | a byte offset survives conversion to code points and back if and only if it is a boundary of the line |
| LineOffsets.ByteOffsetDefined | ycmd/utils.py:166-167 | a prefix of the bytes decodes exactly when it ends at a boundary |
| LineOffsets.OffsetsIncrease | ycmd/utils.py:170-183 | later code points begin at later bytes |
| RequestWrapping.LinesJoin | ycmd/utils.py:384-394 | the lines of a text hold no newline and joined by newlines give it back |
| RequestWrapping.CurrentLineMeaning | ycmd/request_wrap.py:158-166 | the current line is line line_num of the contents counted from 1, from the end for a number below 1 as Python indexes, empty where there is none |
| RequestWrapping.LongestIdentifier | ycmd/identifier_utils.py:198-205 | the start of the longest identifier that ends at the index is the least from which one does, searched from 0; the index itself where none does or it lies outside the text |
| RequestWrapping.StartOfLongestIdentifierEndingAtIndex | ycmd/identifier_utils.py:198-205 | the loop returns that start |
| RequestWrapping.ComputedStart | ycmd/request_wrap.py:264-282 | the start code point computed for a request is the first from which an identifier reaches the cursor, or the cursor itself where none does |
| RequestWrapping.RequestWrap.Get | ycmd/request_wrap.py:90-98 | reading any field returns its from-scratch value under the current start, cached or not, and keeps every cached field right |
| RequestWrapping.RequestWrap.Set | ycmd/request_wrap.py:101-108 | assignments change the start and leave no stale field; other fields are read-only; a column inside a character fails half-way |
| RequestWrapping.RequestWrap.SetStartColumn | ycmd/request_wrap.py:175-191 | the new column and its code point offset are cached, prefix and query dropped |
| RequestWrapping.RequestWrap.SetStartCodepoint | ycmd/request_wrap.py:200-215 | the same for a code point offset |
| RequestWrapping.StartOffsetsConvert | ycmd/request_wrap.py:175-215 | start_column and start_codepoint are conversions of each other if and only if the start lies on the line |
| RequestWrapping.PrefixAndQuery | ycmd/request_wrap.py:218-225 | for every start, on the line or not, prefix and query make up the line to the cursor if and only if the place where the line is cut does not pass the cursor |
| RequestWrapping.PrefixBeforeStart | ycmd/request_wrap.py:224-225 | wherever the start is, the prefix is what the bytes of the line before the start column spell |
| Completions.RequestsEqual | ycmd/request_wrap.py:115-142 | the loop over files computes Equal |
| Completions.ReadRequest | ycmd/request_wrap.py:90-98 | reading the fields of a request object gives a snapshot, or fails exactly where a field raises |
| Completions.EqualMeaning | ycmd/request_wrap.py:115-142 | snapshots are equal if and only if they agree on file, filetypes, options, every other file, every line but the current one, the start column, and the bytes of the current line before it |
| Completions.BytesBeforeStartMeaning | ycmd/request_wrap.py:118 | those bytes are the first start_column - 1 of line line_num |
| Completions.EqualElsewhere | ycmd/request_wrap.py:130-135 | with line numbers from 1, equal requests differ at most on the current line |
| Completions.EqualReflexive | ycmd/request_wrap.py:115-142 | every request equals itself |
| Completions.EqualSymmetric | ycmd/request_wrap.py:115-142 | equality is symmetric although only the first request's files are walked |
| Completions.EqualTransitive | ycmd/request_wrap.py:115-142 | equality is transitive |
| Completions.Completer.ShouldUseNow | ycmd/completers/completer.py:222-238 | when it answers yes, and when it clears the cache |
| Completions.Completer.GetCandidatesFromSubclass | ycmd/completers/completer.py:334-343 | a nonempty remembered list is reused, otherwise the subclass is asked and remembered |
| Completions.Completer.ComputeCandidates | ycmd/completers/completer.py:298-307 | answer and cache are those of one Step |
| Completions.CacheTransparency | ycmd/completers/completer.py:568-604 | for any kind of requests, over every run of them answers are the fresh ones if and only if remembered answers serve equal requests of that kind |
| Completions.CacheIsTransparent | ycmd/completers/completer.py:298-343 | over every run of snapshots, when the subclass depends only on what equality of snapshots compares, each request gets the filtered fresh answer if forced or triggered, else none, empty lists included |

## Left out

- Word, Candidate, Character and Result objects never change once constructed; they are values built by methods, not classes, so their identity is modelled only by the repository's objects.
- Characters within a word are built one by one; that equal spellings share one object is what the interning theorem says of the repository.
- CanonicalOrdering.SortRange: promises a permutation sorted by class but not stability, because `std::sort` does not.
- Thread interleavings and locks: each public call is one atomic step.
- `UnicodeToUtf8`'s escapes for C string literals, the downloads and the regular expressions of `update_unicode.py`; case folding and swapping are fields of a row, not computed.
- Lone surrogates in Python strings, which UTF-8 encoding rejects.
- Requests are compared as snapshots; a completer that assigns to a request after it was remembered is not modelled.
- The `words` dictionary form of candidates, `DetailCandidates` overrides, signature help and the other completer commands.
- Request fields without a derived value: `filetypes`, `force_semantic`, `extra_conf_data` are plain data of the snapshot; validation of missing fields is the predicate `Valid`.
- Tags file parsing, path canonicalisation, HTTP handling, authentication, watchdog and server state.
