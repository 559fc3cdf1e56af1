TestResult.DisplayName,TestResult.Outcome,TestResult.Duration,TestResult.ResourceCount,RandomSeed
Text.WithoutAround (correctness),Passed,00:00:00.6279760,2198783,2
