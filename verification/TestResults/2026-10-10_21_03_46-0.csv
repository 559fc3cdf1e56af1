TestResult.DisplayName,TestResult.Outcome,TestResult.Duration,TestResult.ResourceCount,RandomSeed
Text.WithoutAround (correctness),Failed,00:00:11.5439854,20016405,0
