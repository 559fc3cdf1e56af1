TestResult.DisplayName,TestResult.Outcome,TestResult.Duration,TestResult.ResourceCount,RandomSeed
Text.WithoutAround (correctness),Passed,00:00:02.9271445,9802767,1
