TestResult.DisplayName,TestResult.Outcome,TestResult.Duration,TestResult.ResourceCount,RandomSeed
BlockIndex.BlockEntries (well-formedness),Passed,00:00:00.4133573,364352,4
BlockIndex.BlockEntriesConcat (correctness),Passed,00:00:00.3918696,376017,4
BlockIndex.BlockEntriesOne (correctness),Passed,00:00:00.1364525,218427,4
