TestResult.DisplayName,TestResult.Outcome,TestResult.Duration,TestResult.ResourceCount,RandomSeed
BlockIndex.BlockEntriesConcat (correctness),Passed,00:00:00.6279750,376334,1
BlockIndex.BlockEntries (well-formedness),Passed,00:00:00.6272907,380012,1
BlockIndex.BlockEntriesOne (correctness),Passed,00:00:00.1641516,216277,1
