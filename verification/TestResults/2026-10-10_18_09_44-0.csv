TestResult.DisplayName,TestResult.Outcome,TestResult.Duration,TestResult.ResourceCount,RandomSeed
Masks.ConnectedSymmetric (correctness),Passed,00:00:00.2020284,199453,0
Masks.ConnectedSymmetric (well-formedness),Passed,00:00:00.1394223,25292,0
