TestResult.DisplayName,TestResult.Outcome,TestResult.Duration,TestResult.ResourceCount,RandomSeed
BlockIndex.BlockEntries (well-formedness),Passed,00:00:00.5188026,375219,3
BlockIndex.BlockEntriesConcat (correctness),Passed,00:00:00.5079390,376211,3
BlockIndex.BlockEntriesOne (correctness),Passed,00:00:00.1375552,218518,3
