TestResult.DisplayName,TestResult.Outcome,TestResult.Duration,TestResult.ResourceCount,RandomSeed
BlockIndex.BlockEntries (well-formedness),Passed,00:00:00.5322185,392534,5
BlockIndex.BlockEntriesConcat (correctness),Passed,00:00:00.4884027,333931,5
BlockIndex.BlockEntriesOne (correctness),Passed,00:00:00.1240458,218496,5
