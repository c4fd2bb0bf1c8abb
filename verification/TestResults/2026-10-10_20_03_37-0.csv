TestResult.DisplayName,TestResult.Outcome,TestResult.Duration,TestResult.ResourceCount,RandomSeed
BlockIndex.BlockEntries (well-formedness),Passed,00:00:00.7414912,384786,2
BlockIndex.BlockEntriesConcat (correctness),Passed,00:00:00.6598541,327873,2
BlockIndex.BlockEntriesOne (correctness),Passed,00:00:00.1793806,218381,2
